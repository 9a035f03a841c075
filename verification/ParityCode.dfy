// Parity-check codes over sets of positions.  A stored word is the set of its
// positions that hold a 1, so the exclusive-or of two words is their symmetric
// difference and the number of flipped bits is a cardinality.  Each check bit is
// the parity of (row AND word), as with the row masks of include/sys/R10k.h.
module ParityCode {

  // The exclusive-or of two words.
  function Xor<P>(a: set<P>, b: set<P>): set<P> {
    (a - b) + (b - a)
  }

  // rows[k] holds the positions that enter check bit k, among them the place
  // units[k] where check bit k itself is stored; data holds the data positions.
  datatype Code<P> = Code(rows: seq<set<P>>, units: seq<P>, data: set<P>)

  function Units<P>(c: Code<P>): set<P> {
    set p | p in c.units
  }

  // Every position a stored word may occupy.
  function Space<P>(c: Code<P>): set<P> {
    c.data + Units(c)
  }

  // The row form: check bit k fails when an odd number of its positions hold a 1.
  function Syndrome<P>(c: Code<P>, w: set<P>): set<nat> {
    set k: nat | k < |c.rows| && |c.rows[k] * w| % 2 == 1
  }

  // The column of a position: the check bits it enters.
  function Column<P>(c: Code<P>, p: P): set<nat> {
    set k: nat | k < |c.rows| && p in c.rows[k]
  }

  // The stored form of a data word: the data with its check bits.
  function Encode<P>(c: Code<P>, d: set<P>): set<P>
    requires |c.units| == |c.rows|
  {
    d + set k | k in Syndrome(c, d) :: c.units[k]
  }

  datatype Outcome<P> =
    | Clean(data: set<P>)
    | Corrected(data: set<P>, flipped: P)
    | Uncorrectable

  // Flip the one position whose column equals the syndrome, if there is one.
  ghost function Decode<P>(c: Code<P>, r: set<P>): Outcome<P> {
    var syn := Syndrome(c, r);
    if syn == {} then Clean(r * c.data)
    else if exists p :: p in Space(c) && Column(c, p) == syn then
      var p :| p in Space(c) && Column(c, p) == syn;
      Corrected(Xor(r, {p}) * c.data, p)
    else Uncorrectable
  }

  // Check bits are stored outside the data, each in a place of its own that
  // enters no other check.
  ghost predicate Systematic<P>(c: Code<P>) {
    && |c.units| == |c.rows|
    && (forall k, j :: 0 <= k < |c.rows| && 0 <= j < |c.rows| ==> (c.units[k] in c.rows[j] <==> j == k))
    && (forall k :: 0 <= k < |c.units| ==> c.units[k] !in c.data)
  }

  ghost predicate OddColumns<P>(c: Code<P>) {
    forall p :: p in Space(c) ==> |Column(c, p)| % 2 == 1
  }

  ghost predicate DistinctColumns<P>(c: Code<P>) {
    forall p, q :: p in Space(c) && q in Space(c) && Column(c, p) == Column(c, q) ==> p == q
  }

  // What the row masks must satisfy for single-error correction and
  // double-error detection.
  ghost predicate SecDed<P>(c: Code<P>) {
    Systematic(c) && OddColumns(c) && DistinctColumns(c)
  }

  // ---- linearity ----

  lemma CountXor<P>(a: set<P>, b: set<P>)
    ensures |Xor(a, b)| + 2 * |a * b| == |a| + |b|
  {
    assert a == (a - b) + a * b && (a - b) !! (a * b);
    assert b == (b - a) + a * b && (b - a) !! (a * b);
  }

  lemma OddXor<P>(a: set<P>, b: set<P>)
    requires |b| % 2 == 1
    ensures |Xor(a, b)| % 2 == (|a| + 1) % 2
  {
    CountXor(a, b);
  }

  lemma XorCancels<P>(a: set<P>, b: set<P>)
    ensures Xor(Xor(a, b), b) == a
    ensures Xor(a, Xor(a, b)) == b
    ensures Xor(a, b) == {} <==> a == b
  {}

  lemma OnlyMember<P>(s: set<P>) returns (p: P)
    requires |s| == 1
    ensures s == {p}
  {
    p :| p in s;
    assert |s - {p}| == 0;
  }

  lemma TwoMembers<P>(s: set<P>) returns (p: P, q: P)
    requires |s| == 2
    ensures p != q && s == Xor({p}, {q})
  {
    p :| p in s;
    q := OnlyMember(s - {p});
    assert q in s - {p};
  }

  lemma RowOfXor<P>(row: set<P>, a: set<P>, b: set<P>)
    ensures row * Xor(a, b) == Xor(row * a, row * b)
  {}

  lemma RowXor<P>(row: set<P>, a: set<P>, b: set<P>)
    ensures |row * Xor(a, b)| % 2 == (|row * a| + |row * b|) % 2
  {
    RowOfXor(row, a, b);
    CountXor(row * a, row * b);
  }

  // The syndrome is linear.
  lemma SyndromeXor<P>(c: Code<P>, a: set<P>, b: set<P>)
    ensures Syndrome(c, Xor(a, b)) == Xor(Syndrome(c, a), Syndrome(c, b))
  {
    forall k: nat | k < |c.rows|
      ensures |c.rows[k] * Xor(a, b)| % 2 == (|c.rows[k] * a| + |c.rows[k] * b|) % 2
    {
      RowXor(c.rows[k], a, b);
    }
  }

  lemma SyndromeOfOne<P>(c: Code<P>, p: P)
    ensures Syndrome(c, {p}) == Column(c, p)
  {
    forall k: nat | k < |c.rows|
      ensures |c.rows[k] * {p}| == if p in c.rows[k] then 1 else 0
    {
      assert c.rows[k] * {p} == if p in c.rows[k] then {p} else {};
    }
  }

  // Flipping one more position adds its column to the syndrome.
  lemma SyndromeFlip<P>(c: Code<P>, w: set<P>, p: P)
    ensures Syndrome(c, Xor(w, {p})) == Xor(Syndrome(c, w), Column(c, p))
  {
    SyndromeXor(c, w, {p});
    SyndromeOfOne(c, p);
  }

  // ---- the column form ----

  // Start from the all-zero word and flip the listed positions in turn.
  ghost function Flips<P>(ps: seq<P>): set<P> {
    if ps == [] then {} else Xor(Flips(ps[1..]), {ps[0]})
  }

  ghost function XorOfColumns<P>(c: Code<P>, ps: seq<P>): set<nat> {
    if ps == [] then {} else Xor(XorOfColumns(c, ps[1..]), Column(c, ps[0]))
  }

  // Row form and column form agree, whatever the order or repetition of the flips.
  lemma {:induction false} RowFormIsColumnForm<P>(c: Code<P>, ps: seq<P>)
    ensures Syndrome(c, Flips(ps)) == XorOfColumns(c, ps)
  {
    if ps != [] {
      RowFormIsColumnForm(c, ps[1..]);
      SyndromeFlip(c, Flips(ps[1..]), ps[0]);
    }
  }

  // Every word is a list of flips, of each of its positions once ...
  lemma {:induction false} WordIsFlips<P>(w: set<P>) returns (ps: seq<P>)
    ensures Flips(ps) == w && |ps| == |w| && forall p :: p in ps <==> p in w
    decreases |w|
  {
    if w == {} {
      ps := [];
    } else {
      hide Flips, Xor;
      var p :| p in w;
      var rest := WordIsFlips(w - {p});
      ps := [p] + rest;
      OneMoreFlip(rest, p, w);
    }
  }

  lemma OneMoreFlip<P>(rest: seq<P>, p: P, w: set<P>)
    requires p in w && Flips(rest) == w - {p}
    ensures Flips([p] + rest) == w
  {
    assert ([p] + rest)[1..] == rest;
    assert Xor(w - {p}, {p}) == w;
  }

  // ... so the syndrome of every word is the exclusive-or of the columns of its positions.
  lemma WordFormIsColumnForm<P>(c: Code<P>, w: set<P>) returns (ps: seq<P>)
    ensures |ps| == |w| && (forall p :: p in ps <==> p in w) && Syndrome(c, w) == XorOfColumns(c, ps)
  {
    ps := WordIsFlips(w);
    RowFormIsColumnForm(c, ps);
  }

  // ---- codewords ----

  lemma RowOfStored<P>(c: Code<P>, r: set<P>, k: nat)
    requires Systematic(c) && r <= Space(c) && k < |c.rows|
    ensures k in Syndrome(c, r) <==> ((k in Syndrome(c, r * c.data)) != (c.units[k] in r))
  {
    var u := c.units[k];
    assert c.rows[k] * r == c.rows[k] * (r * c.data) + (if u in r then {u} else {});
  }

  lemma EncodeParts<P>(c: Code<P>, d: set<P>)
    requires Systematic(c) && d <= c.data
    ensures Encode(c, d) <= Space(c) && Encode(c, d) * c.data == d
    ensures forall k: nat | k < |c.rows| :: c.units[k] in Encode(c, d) <==> k in Syndrome(c, d)
  {
    forall k: nat, j: nat | k < |c.rows| && j < |c.rows| && c.units[k] == c.units[j]
      ensures k == j
    {
      assert c.units[k] in c.rows[k];
    }
  }

  // The words without a failing check are exactly the encodings.
  lemma CodewordsAreEncodings<P>(c: Code<P>, r: set<P>)
    requires Systematic(c) && r <= Space(c)
    ensures Syndrome(c, r) == {} <==> r == Encode(c, r * c.data)
  {
    EncodeParts(c, r * c.data);
    forall k: nat | k < |c.rows|
      ensures k in Syndrome(c, r) <==> ((k in Syndrome(c, r * c.data)) != (c.units[k] in r))
    {
      RowOfStored(c, r, k);
    }
    if Syndrome(c, r) == {} {
      forall p ensures p in r <==> p in Encode(c, r * c.data) {
        if p in c.units {
          var k :| 0 <= k < |c.units| && c.units[k] == p;
        }
      }
    } else {
      var k :| k in Syndrome(c, r);
    }
  }

  // ---- parity of the syndrome ----

  // Is p in an odd number of the first n rows?
  predicate InOddRows<P>(rows: seq<set<P>>, p: P, n: nat)
    requires n <= |rows|
  {
    n > 0 && (InOddRows(rows, p, n - 1) != (p in rows[n - 1]))
  }

  lemma {:induction false} OddRowsOddColumn<P>(rows: seq<set<P>>, p: P, n: nat)
    requires n <= |rows|
    ensures |set k: nat | k < n && p in rows[k]| % 2 == 1 <==> InOddRows(rows, p, n)
  {
    var s := set k: nat | k < n && p in rows[k];
    if n == 0 {
      assert s == {};
    } else {
      var t := set k: nat | k < n - 1 && p in rows[k];
      OddRowsOddColumn(rows, p, n - 1);
      assert s == t + if p in rows[n - 1] then {n - 1} else {};
      assert |s| == |t| + if p in rows[n - 1] then 1 else 0;
    }
  }

  lemma {:induction false} SyndromeParity<P>(c: Code<P>, e: set<P>)
    requires OddColumns(c) && e <= Space(c)
    ensures |Syndrome(c, e)| % 2 == |e| % 2
    decreases e
  {
    if e == {} {
      assert Syndrome(c, e) == {};
    } else {
      var p :| p in e;
      SyndromeParity(c, e - {p});
      ParityStep(c, e, p);
    }
  }

  lemma ParityStep<P>(c: Code<P>, e: set<P>, p: P)
    requires |Column(c, p)| % 2 == 1 && p in e
    requires |Syndrome(c, e - {p})| % 2 == |e - {p}| % 2
    ensures |Syndrome(c, e)| % 2 == |e| % 2
  {
    SyndromeWith(c, e, p);
    OddXor(Syndrome(c, e - {p}), Column(c, p));
    Alternate(|Syndrome(c, e - {p})|, |Syndrome(c, e)|, |e - {p}|, |e|);
  }

  lemma Alternate(a: nat, a': nat, b: nat, b': nat)
    requires a % 2 == b % 2 && a' % 2 == (a + 1) % 2 && b' == b + 1
    ensures a' % 2 == b' % 2
  {}

  lemma SyndromeWith<P>(c: Code<P>, e: set<P>, p: P)
    requires p in e
    ensures Syndrome(c, e) == Xor(Syndrome(c, e - {p}), Column(c, p))
  {
    SyndromeFlip(c, e - {p}, p);
    assert Xor(e - {p}, {p}) == e;
  }

  // ---- distance ----

  lemma NoPairIsCodeword<P>(c: Code<P>, e: set<P>)
    requires SecDed(c) && e <= Space(c) && |e| == 2
    ensures Syndrome(c, e) != {}
  {
    var p, q := TwoMembers(e);
    assert p in e && q in e;
    SyndromeFlip(c, {p}, q);
    SyndromeOfOne(c, p);
    XorCancels(Column(c, p), Column(c, q));
  }

  // A nonzero word without a failing check has at least four set positions.
  lemma CodewordWeight<P>(c: Code<P>, e: set<P>)
    requires SecDed(c) && e <= Space(c) && e != {} && Syndrome(c, e) == {}
    ensures |e| >= 4
  {
    SyndromeParity(c, e);
    EvenSize(|e|);
    if |e| == 2 {
      NoPairIsCodeword(c, e);
    }
  }

  lemma EvenSize(n: nat)
    ensures n % 2 == 0 ==> n == 0 || n == 2 || n >= 4
  {}

  // Encodings of different data words differ in at least four positions.
  lemma MinimumDistance<P>(c: Code<P>, d1: set<P>, d2: set<P>)
    requires SecDed(c) && d1 <= c.data && d2 <= c.data && d1 != d2
    ensures |Xor(Encode(c, d1), Encode(c, d2))| >= 4
  {
    var w1, w2 := Encode(c, d1), Encode(c, d2);
    EncodeParts(c, d1);
    EncodeParts(c, d2);
    CodewordsAreEncodings(c, w1);
    CodewordsAreEncodings(c, w2);
    SyndromeXor(c, w1, w2);
    XorCancels(w1, w2);
    CodewordWeight(c, Xor(w1, w2));
  }

  // ---- decoding ----

  // The word a decoding hands back, if any.
  function Word<P>(o: Outcome<P>): set<set<P>> {
    match o
    case Clean(d) => {d}
    case Corrected(d, _) => {d}
    case Uncorrectable => {}
  }

  // One flip away from a codeword: flipping back gives its encoding.
  lemma FlipBack<P>(c: Code<P>, r: set<P>, p: P)
    requires Systematic(c) && r <= Space(c) && p in Space(c)
    ensures Column(c, p) == Syndrome(c, r) <==> Xor(r, {p}) == Encode(c, Xor(r, {p}) * c.data)
  {
    SyndromeFlip(c, r, p);
    CodewordsAreEncodings(c, Xor(r, {p}));
    XorCancels(Syndrome(c, r), Column(c, p));
  }

  lemma DecodedIsNear<P>(c: Code<P>, r: set<P>, d: set<P>)
    requires SecDed(c) && r <= Space(c) && Word(Decode(c, r)) == {d}
    ensures d <= c.data && |Xor(r, Encode(c, d))| <= 1
    ensures Decode(c, r).Clean? ==> r == Encode(c, d)
  {
    assert d in Word(Decode(c, r));
    match Decode(c, r)
    case Clean(_) =>
      CodewordsAreEncodings(c, r);
      XorCancels(r, r);
    case Corrected(_, p) =>
      FlipBack(c, r, p);
      XorCancels(r, {p});
    case Uncorrectable =>
  }

  lemma NearIsDecoded<P>(c: Code<P>, r: set<P>, d: set<P>)
    requires SecDed(c) && r <= Space(c) && d <= c.data
    requires |Xor(r, Encode(c, d))| == 1
    ensures Decode(c, r).Corrected? && Decode(c, r).data == d
    ensures Xor(r, Encode(c, d)) == {Decode(c, r).flipped}
  {
    var w := Encode(c, d);
    var p := OnlyMember(Xor(r, w));
    EncodeParts(c, d);
    XorCancels(r, w);
    assert p in Xor(r, w);
    FlipBack(c, r, p);
    CorrectsTo(c, r, p);
  }

  lemma CorrectsTo<P>(c: Code<P>, r: set<P>, p: P)
    requires OddColumns(c) && DistinctColumns(c)
    requires p in Space(c) && Column(c, p) == Syndrome(c, r)
    ensures Decode(c, r) == Corrected(Xor(r, {p}) * c.data, p)
  {
    assert |Column(c, p)| % 2 == 1;
  }

  // What decoding does, for every stored word: it returns d exactly when the
  // encoding of d is at most one flip away, and nothing when none is.
  lemma DecodeExactly<P>(c: Code<P>, r: set<P>, d: set<P>)
    requires SecDed(c) && r <= Space(c) && d <= c.data
    ensures Word(Decode(c, r)) == {d} <==> |Xor(r, Encode(c, d))| <= 1
    ensures Decode(c, r) == Clean(d) <==> r == Encode(c, d)
  {
    if Word(Decode(c, r)) == {d} {
      DecodedIsNear(c, r, d);
    }
    XorCancels(r, Encode(c, d));
    if r == Encode(c, d) {
      EncodeParts(c, d);
      CodewordsAreEncodings(c, r);
    } else if |Xor(r, Encode(c, d))| == 1 {
      NearIsDecoded(c, r, d);
    }
  }

  // ---- what happens to a stored word after flips e ----

  lemma FlippedWord<P>(c: Code<P>, d: set<P>, e: set<P>)
    requires SecDed(c) && d <= c.data && e <= Space(c)
    ensures var r := Xor(Encode(c, d), e);
            r <= Space(c) && Xor(r, Encode(c, d)) == e && Syndrome(c, r) == Syndrome(c, e)
  {
    var w := Encode(c, d);
    EncodeParts(c, d);
    CodewordsAreEncodings(c, w);
    SyndromeXor(c, w, e);
  }

  // No flip decodes as clean, one flip is corrected in place.
  lemma OneFlipCorrected<P>(c: Code<P>, d: set<P>, p: P)
    requires SecDed(c) && d <= c.data && p in Space(c)
    ensures Decode(c, Encode(c, d)) == Clean(d)
    ensures Decode(c, Xor(Encode(c, d), {p})) == Corrected(d, p)
  {
    FlippedWord(c, d, {});
    DecodeExactly(c, Encode(c, d), d);
    FlippedWord(c, d, {p});
    NearIsDecoded(c, Xor(Encode(c, d), {p}), d);
  }

  // Two flips are reported, never altered as if they were one.
  lemma TwoFlipsDetected<P>(c: Code<P>, d: set<P>, e: set<P>)
    requires SecDed(c) && d <= c.data && e <= Space(c) && |e| == 2
    ensures Decode(c, Xor(Encode(c, d), e)) == Uncorrectable
  {
    FlippedWord(c, d, e);
    NoPairIsCodeword(c, e);
    EvenFlipsNotCorrected(c, d, e);
  }

  // Whatever their number: an even number of flips is never "corrected".
  lemma EvenFlipsNotCorrected<P>(c: Code<P>, d: set<P>, e: set<P>)
    requires SecDed(c) && d <= c.data && e <= Space(c) && |e| % 2 == 0
    ensures !Decode(c, Xor(Encode(c, d), e)).Corrected?
  {
    SyndromeParity(c, e);
    FlippedWord(c, d, e);
    var r := Xor(Encode(c, d), e);
    assert forall p :: p in Space(c) && Column(c, p) == Syndrome(c, r) ==> |Column(c, p)| % 2 == 1;
  }

  // Whatever their number: an odd number of flips is never taken for clean.
  lemma OddFlipsNotClean<P>(c: Code<P>, d: set<P>, e: set<P>)
    requires SecDed(c) && d <= c.data && e <= Space(c) && |e| % 2 == 1
    ensures Syndrome(c, Xor(Encode(c, d), e)) != {}
    ensures !Decode(c, Xor(Encode(c, d), e)).Clean?
  {
    SyndromeParity(c, e);
    OddIsNotNone(Syndrome(c, e), |e|);
    FlippedWord(c, d, e);
  }

  lemma OddIsNotNone(s: set<nat>, n: nat)
    requires |s| % 2 == n % 2 && n % 2 == 1
    ensures s != {}
  {}

  // Everything decoding guarantees after flips e, by the number of flips.
  lemma ProtectedBy<P>(c: Code<P>, d: set<P>, e: set<P>)
    requires SecDed(c) && d <= c.data && e <= Space(c)
    ensures var outcome := Decode(c, Xor(Encode(c, d), e));
            && (|e| == 0 ==> outcome == Clean(d))
            && (|e| == 1 ==> outcome.Corrected? && outcome.data == d && e == {outcome.flipped})
            && (|e| == 2 ==> outcome == Uncorrectable)
            && (|e| % 2 == 0 ==> !outcome.Corrected?)
            && (|e| % 2 == 1 ==> !outcome.Clean?)
  {
    if |e| == 0 {
      assert e == {};
      assert Xor(Encode(c, d), e) == Encode(c, d);
      FlippedWord(c, d, e);
      DecodeExactly(c, Encode(c, d), d);
    }
    if |e| == 1 {
      var p := OnlyMember(e);
      OneFlipCorrected(c, d, p);
    }
    if |e| == 2 {
      TwoFlipsDetected(c, d, e);
    }
    if |e| % 2 == 0 {
      EvenFlipsNotCorrected(c, d, e);
    } else {
      OddFlipsNotClean(c, d, e);
    }
  }

  lemma SyndromeOfThree<P>(c: Code<P>, p: P, q: P, r: P)
    requires p != q && p != r && q != r
    ensures Syndrome(c, {p, q, r}) == Xor(Xor(Column(c, p), Column(c, q)), Column(c, r))
  {
    SyndromeOfOne(c, p);
    SyndromeFlip(c, {p}, q);
    SyndromeFlip(c, {p, q}, r);
    assert Xor({p}, {q}) == {p, q};
    assert Xor({p, q}, {r}) == {p, q, r};
  }

  // Data flips that fail the same checks as one other position are mistaken for it.
  lemma MistakenFor<P>(c: Code<P>, d: set<P>, e: set<P>, p: P)
    requires SecDed(c) && d <= c.data && e <= c.data && p in c.data && p !in e
    requires Syndrome(c, e) == Column(c, p)
    ensures Decode(c, Xor(Encode(c, d), e)) == Corrected(Xor(d, e + {p}), p)
  {
    FlippedWord(c, d, e);
    CorrectsTo(c, Xor(Encode(c, d), e), p);
    EncodeParts(c, d);
    DataPart(Encode(c, d), c.data, e, p);
  }

  lemma DataPart<P>(w: set<P>, data: set<P>, e: set<P>, p: P)
    requires e <= data && p in data && p !in e
    ensures Xor(Xor(w, e), {p}) * data == Xor(w * data, e + {p})
  {}
}
