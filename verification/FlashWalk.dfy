// The order in which nextSegment visits the segments of a flash ROM
// (src/libsk/ml/flash.c:45-94), page by page.  A page either starts a segment,
// when it holds a valid header, or does not.
module FlashWalk {

  datatype Option<+T> = None | Some(value: T)

  datatype Slot =
    | Blank
    // next: the page the address after the segment leads to, before or after this
    // one, or below zero when that address is below the ROM; named: its name is not
    // empty; inside: it holds its header and ends in the ROM
    | Segment(next: int, named: bool, inside: bool)

  // From page k, page by page, to the first valid header.  (There is no page below
  // zero: a search that is led there is not followed.)
  function Scan(slots: seq<Slot>, k: int): (r: Option<nat>)
    ensures r.Some? ==> k <= r.value < |slots| && slots[r.value].Segment?
    decreases |slots| - k
  {
    if k < 0 || k >= |slots| then None
    else if slots[k].Segment? then Some(k)
    else Scan(slots, k + 1)
  }

  // Where the search goes on after page k.
  function After(slots: seq<Slot>, k: nat): int {
    if k < |slots| && slots[k].Segment? then slots[k].next else k + 1
  }

  function Start(slots: seq<Slot>, from: Option<nat>): int {
    if from.None? then 0 else After(slots, from.value)
  }

  // nextSegment: from the start of the ROM, or from a page, to the next valid
  // header; a header without a name ends the list.
  function Next(slots: seq<Slot>, from: Option<nat>): (r: Option<nat>)
    ensures r.Some? ==> r.value < |slots| && slots[r.value].Segment?
  {
    var found := Scan(slots, Start(slots, from));
    if found.Some? && !slots[found.value].named then None else found
  }

  // The segments nextSegment visits from page k on, up to the first that leads back
  // to its own page or one before it.
  function Walk(slots: seq<Slot>, k: int): seq<nat>
    decreases |slots| - k
  {
    if k < 0 || k >= |slots| then []
    else match slots[k]
      case Blank => Walk(slots, k + 1)
      case Segment(next, named, _) =>
        if !named then []
        else if next <= k then [k]
        else [k] + Walk(slots, next)
  }

  lemma {:induction false} WalkMember(slots: seq<Slot>, k: nat, i: nat)
    requires i < |Walk(slots, k)|
    ensures var q := Walk(slots, k)[i];
            && k <= q < |slots| && slots[q].Segment? && slots[q].named
            && (i + 1 < |Walk(slots, k)| ==> slots[q].next > q)
    decreases |slots| - k
  {
    match slots[k]
    case Blank => WalkMember(slots, k + 1, i);
    case Segment(next, _, _) =>
      if i > 0 {
        WalkMember(slots, next, i - 1);
      }
  }

  // ---- nextSegment finds the nearest header ----

  lemma {:induction false} ScanIsNearest(slots: seq<Slot>, k: nat, q: nat)
    requires k <= q < |slots| && slots[q].Segment?
    ensures Scan(slots, k).Some? && Scan(slots, k).value <= q
    decreases q - k
  {
    if !slots[k].Segment? {
      ScanIsNearest(slots, k + 1, q);
    }
  }

  // nextSegment returns q exactly when q holds the first valid header from its
  // starting point on, and that header has a name.
  lemma NextIsNearest(slots: seq<Slot>, from: Option<nat>, q: nat)
    ensures Next(slots, from) == Some(q) <==>
            && 0 <= Start(slots, from) <= q < |slots| && slots[q].Segment? && slots[q].named
            && forall p :: Start(slots, from) <= p < q ==> slots[p].Blank?
  {
    var start := Start(slots, from);
    var found := Scan(slots, start);
    if found.Some? {
      forall p | start <= p < found.value
        ensures slots[p].Blank?
      {
        if slots[p].Segment? {
          ScanIsNearest(slots, start, p);
        }
      }
    }
    if 0 <= start <= q < |slots| && slots[q].Segment? {
      ScanIsNearest(slots, start, q);
    }
  }

  // The walk from what nextSegment returned.
  function Onward(slots: seq<Slot>, found: Option<nat>): seq<nat> {
    if found.None? then [] else Walk(slots, found.value)
  }

  // Calling nextSegment again goes through the walk, as long as the segments lead
  // on.
  lemma NextWalks(slots: seq<Slot>, from: Option<nat>)
    ensures Walk(slots, Start(slots, from)) == Onward(slots, Next(slots, from))
    ensures match Next(slots, from)
            case None => true
            case Some(q) =>
              Walk(slots, q) == if slots[q].next > q then [q] + Walk(slots, Start(slots, Some(q))) else [q]
  {
    ScanWalks(slots, Start(slots, from));
  }

  lemma {:induction false} ScanWalks(slots: seq<Slot>, k: int)
    ensures Walk(slots, k) == Onward(slots, Scan(slots, k))
    decreases |slots| - k
  {
    if 0 <= k < |slots| && slots[k].Blank? {
      ScanWalks(slots, k + 1);
    }
  }

  // ---- when a search by nextSegment ends ----

  // Does a loop over nextSegment that stops at one set of pages end within n calls,
  // before it meets one of another set or is led below the ROM?
  predicate EndsWithin(slots: seq<Slot>, from: Option<nat>, stop: set<nat>, avoid: set<nat>, n: nat)
    decreases n
  {
    && n > 0 && Start(slots, from) >= 0
    && var q := Next(slots, from);
       q.None? || q.value in stop || (q.value !in avoid && EndsWithin(slots, q, stop, avoid, n - 1))
  }

  // Does it end at all?
  ghost predicate LoopEnds(slots: seq<Slot>, from: Option<nat>, stop: set<nat>, avoid: set<nat>) {
    exists n: nat :: EndsWithin(slots, from, stop, avoid, n)
  }

  // It does exactly when it ends within one call more than there are pages.
  lemma LoopEndsExactly(slots: seq<Slot>, from: Option<nat>, stop: set<nat>, avoid: set<nat>)
    ensures LoopEnds(slots, from, stop, avoid) <==> EndsWithin(slots, from, stop, avoid, |slots| + 1)
  {
    if LoopEnds(slots, from, stop, avoid) {
      var n: nat :| EndsWithin(slots, from, stop, avoid, n);
      var calls := Calls(slots, from, stop, avoid, n);
      var pages := PagesMet(slots, from, stop, avoid, calls);
      FewPages(pages, |slots|);
      EndsLater(slots, from, stop, avoid, calls, |slots| + 1);
    }
  }

  lemma {:induction false} EndsLater(slots: seq<Slot>, from: Option<nat>, stop: set<nat>, avoid: set<nat>, m: nat,
                                     n: nat)
    requires EndsWithin(slots, from, stop, avoid, m) && m <= n
    ensures EndsWithin(slots, from, stop, avoid, n)
    decreases n
  {
    var q := Next(slots, from);
    if q.Some? && q.value !in stop {
      EndsLater(slots, q, stop, avoid, m - 1, n - 1);
    }
  }

  // Does it end with the nth call?
  predicate EndsAfter(slots: seq<Slot>, from: Option<nat>, stop: set<nat>, avoid: set<nat>, n: nat) {
    n > 0 && EndsWithin(slots, from, stop, avoid, n) && !EndsWithin(slots, from, stop, avoid, n - 1)
  }

  lemma {:induction false} Calls(slots: seq<Slot>, from: Option<nat>, stop: set<nat>, avoid: set<nat>, n: nat)
    returns (calls: nat)
    requires EndsWithin(slots, from, stop, avoid, n)
    ensures calls <= n && EndsAfter(slots, from, stop, avoid, calls)
    decreases n
  {
    if EndsWithin(slots, from, stop, avoid, n - 1) {
      calls := Calls(slots, from, stop, avoid, n - 1);
    } else {
      calls := n;
    }
  }

  // No page is met twice on the way: it would take as many calls from there as
  // before.
  lemma {:induction false} PagesMet(slots: seq<Slot>, from: Option<nat>, stop: set<nat>, avoid: set<nat>, calls: nat)
    returns (pages: set<nat>)
    requires EndsAfter(slots, from, stop, avoid, calls)
    ensures |pages| == calls - 1
    ensures forall p :: p in pages ==>
              p < |slots| && exists n: nat :: n < calls && EndsAfter(slots, Some(p), stop, avoid, n)
    decreases calls
  {
    var q := Next(slots, from);
    if calls == 1 {
      pages := {};
    } else {
      assert EndsAfter(slots, q, stop, avoid, calls - 1);
      var rest := PagesMet(slots, q, stop, avoid, calls - 1);
      if q.value in rest {
        var n: nat :| n < calls - 1 && EndsAfter(slots, q, stop, avoid, n);
        EndsLater(slots, q, stop, avoid, n, calls - 2);
      }
      pages := rest + {q.value};
    }
  }

  lemma {:induction false} FewPages(pages: set<nat>, m: nat)
    requires forall p :: p in pages ==> p < m
    ensures |pages| <= m
  {
    if m > 0 {
      FewPages(pages - {m - 1}, m - 1);
    } else {
      assert pages == {};
    }
  }

  // What n calls return, each from what the one before returned, up to the first that
  // returns nothing.
  function Trail(slots: seq<Slot>, from: Option<nat>, n: nat): seq<nat>
    decreases n
  {
    var q := Next(slots, from);
    if n == 0 || q.None? then [] else [q.value] + Trail(slots, q, n - 1)
  }

  // The first of the listed pages that is in a set.
  function FirstIn(segs: seq<nat>, pages: set<nat>): Option<nat> {
    if segs == [] then None
    else if segs[0] in pages then Some(segs[0])
    else FirstIn(segs[1..], pages)
  }

  // The set decides at each place in the list whether it is the first.
  lemma {:induction false} FirstInIsFirst(segs: seq<nat>, pages: set<nat>, k: nat)
    ensures FirstIn(segs, pages) == Some(k) <==> exists i :: IsFirst(segs, pages, k, i)
    ensures FirstIn(segs, pages) == None <==> forall j :: 0 <= j < |segs| ==> segs[j] !in pages
  {
    if segs != [] && segs[0] !in pages {
      FirstInIsFirst(segs[1..], pages, k);
      if FirstIn(segs[1..], pages) == Some(k) {
        var i :| IsFirst(segs[1..], pages, k, i);
        assert IsFirst(segs, pages, k, i + 1);
      }
      forall i | IsFirst(segs, pages, k, i)
        ensures IsFirst(segs[1..], pages, k, i - 1)
      {
      }
    } else if segs != [] && segs[0] == k {
      assert IsFirst(segs, pages, k, 0);
    }
  }

  predicate IsFirst(segs: seq<nat>, pages: set<nat>, k: nat, i: int) {
    0 <= i < |segs| && segs[i] == k && k in pages && forall j :: 0 <= j < i ==> segs[j] !in pages
  }

  // What a loop that ends stops at; no page turns up later than one call more than
  // there are pages.
  function Found(slots: seq<Slot>, from: Option<nat>, stop: set<nat>): Option<nat> {
    FirstIn(Trail(slots, from, |slots| + 1), stop)
  }

  // Where the loop has ended, more calls find nothing else.
  lemma {:induction false} FirstOfMore(slots: seq<Slot>, from: Option<nat>, stop: set<nat>, avoid: set<nat>,
                                       m: nat, n: nat)
    requires EndsWithin(slots, from, stop, avoid, m) && m <= n
    ensures FirstIn(Trail(slots, from, m), stop) == FirstIn(Trail(slots, from, n), stop)
    decreases n
  {
    var q := Next(slots, from);
    if q.Some? && q.value !in stop {
      FirstOfMore(slots, q, stop, avoid, m - 1, n - 1);
    }
  }

  // One call of a loop that ends: it returns nothing, or a page to stop at, or the loop
  // goes on from there.
  lemma FoundStep(slots: seq<Slot>, from: Option<nat>, stop: set<nat>, avoid: set<nat>, n: nat)
    requires EndsWithin(slots, from, stop, avoid, n) && n <= |slots| + 1
    ensures var q := Next(slots, from);
            if q.None? then Found(slots, from, stop) == None
            else if q.value in stop then Found(slots, from, stop) == q
            else
              && n > 0 && EndsWithin(slots, q, stop, avoid, n - 1) && q.value !in avoid
              && Found(slots, from, stop) == Found(slots, q, stop)
  {
    var q := Next(slots, from);
    if q.Some? && q.value !in stop {
      FirstOfMore(slots, q, stop, avoid, n - 1, |slots|);
      FirstOfMore(slots, q, stop, avoid, n - 1, |slots| + 1);
    }
  }

  // A loop may be run as one that stops at more pages, gone on with from each page it
  // need not have stopped at, as long as those are not to be avoided.
  lemma {:induction false} FoundAmong(slots: seq<Slot>, from: Option<nat>, stop: set<nat>, more: set<nat>,
                                      avoid: set<nat>, n: nat)
    requires EndsWithin(slots, from, stop, avoid, n) && n <= |slots| + 1 && stop <= more
    ensures EndsWithin(slots, from, more, {}, n)
    ensures match Found(slots, from, more)
            case None => Found(slots, from, stop) == None
            case Some(q) =>
              if q in stop then Found(slots, from, stop) == Some(q)
              else
                && q !in avoid && Found(slots, from, stop) == Found(slots, Some(q), stop)
                && n > 0 && EndsWithin(slots, Some(q), stop, avoid, n - 1)
    decreases n
  {
    var q := Next(slots, from);
    FoundStep(slots, from, stop, avoid, n);
    if q.Some? && q.value !in more {
      FoundAmong(slots, q, stop, more, avoid, n - 1);
      LaterStill(slots, q, stop, more, avoid, n - 1);
    }
    FoundStep(slots, from, more, {}, n);
  }

  lemma LaterStill(slots: seq<Slot>, from: Option<nat>, stop: set<nat>, more: set<nat>, avoid: set<nat>, n: nat)
    ensures match Found(slots, from, more)
            case None => true
            case Some(q) =>
              n > 0 && EndsWithin(slots, Some(q), stop, avoid, n - 1) ==> EndsWithin(slots, Some(q), stop, avoid, n)
  {
    var q := Found(slots, from, more);
    if q.Some? && n > 0 && EndsWithin(slots, q, stop, avoid, n - 1) {
      EndsLater(slots, q, stop, avoid, n - 1, n);
    }
  }

  // Does every listed segment up to the first of one set lead on, and is none of
  // another?
  predicate LeadsOn(slots: seq<Slot>, segs: seq<nat>, stop: set<nat>, avoid: set<nat>) {
    segs == [] || segs[0] in stop || (
      && segs[0] < |slots| && slots[segs[0]].Segment? && slots[segs[0]].next > segs[0]
      && segs[0] !in avoid && LeadsOn(slots, segs[1..], stop, avoid))
  }

  // Then the loop ends on the walk, and stops at the first such page of the walk.
  lemma {:induction false} WalkEnds(slots: seq<Slot>, from: Option<nat>, stop: set<nat>, avoid: set<nat>)
    requires Start(slots, from) >= 0 && LeadsOn(slots, Walk(slots, Start(slots, from)), stop, avoid)
    ensures EndsWithin(slots, from, stop, avoid, |slots| + 1)
    ensures Found(slots, from, stop) == FirstIn(Walk(slots, Start(slots, from)), stop)
    decreases |Walk(slots, Start(slots, from))|
  {
    var q := Next(slots, from);
    NextWalks(slots, from);
    if q.Some? && q.value !in stop {
      WalkEnds(slots, q, stop, avoid);
      assert EndsWithin(slots, from, stop, avoid, |slots| + 2);
      LoopEndsExactly(slots, from, stop, avoid);
      FoundStep(slots, from, stop, avoid, |slots| + 1);
    }
  }

  // A walk leads on at least as far as anything on it.
  lemma {:induction false} WalkLeadsOn(slots: seq<Slot>, k: nat, stop: set<nat>, avoid: set<nat>)
    requires FirstIn(Walk(slots, k), stop).Some? && forall q :: q in Walk(slots, k) ==> q !in avoid
    ensures LeadsOn(slots, Walk(slots, k), stop, avoid)
    decreases |slots| - k
  {
    if slots[k].Blank? {
      WalkLeadsOn(slots, k + 1, stop, avoid);
    } else if k !in stop {
      WalkMember(slots, k, 0);
      if slots[k].next > k {
        var rest := Walk(slots, slots[k].next);
        assert Walk(slots, k)[1..] == rest;
        assert forall q :: q in rest ==> q in Walk(slots, k);
        WalkLeadsOn(slots, slots[k].next, stop, avoid);
      }
    }
  }

  // From a page that leads nowhere but to itself the loop never ends.
  lemma {:induction false} StuckAt(slots: seq<Slot>, q: nat, stop: set<nat>, avoid: set<nat>, n: nat)
    requires q < |slots| && slots[q].Segment? && slots[q].named && slots[q].next == q && q !in stop
    ensures !EndsWithin(slots, Some(q), stop, avoid, n)
    decreases n
  {
    if n > 0 {
      StuckAt(slots, q, stop, avoid, n - 1);
    }
  }

  // ---- what the walk depends on ----

  // The walk from page k looks at no page before k.
  lemma {:induction false} WalkAgrees(slots: seq<Slot>, slots': seq<Slot>, k: nat)
    requires |slots| == |slots'| && forall i :: k <= i < |slots| ==> slots[i] == slots'[i]
    ensures Walk(slots, k) == Walk(slots', k)
    decreases |slots| - k
  {
    if k < |slots| {
      if slots[k].Blank? {
        WalkAgrees(slots, slots', k + 1);
      } else if slots[k].next > k {
        WalkAgrees(slots, slots', slots[k].next);
      }
    }
  }

  // The walk from page k visits segs and then is about to look at page p.
  ghost predicate Arrives(slots: seq<Slot>, k: nat, segs: seq<nat>, p: nat)
    decreases p - k
  {
    if k >= p || k >= |slots| then k == p && segs == []
    else match slots[k]
      case Blank => Arrives(slots, k + 1, segs, p)
      case Segment(next, named, _) =>
        named && next > k && segs != [] && segs[0] == k && Arrives(slots, next, segs[1..], p)
  }

  lemma {:induction false} ArrivesWalk(slots: seq<Slot>, k: nat, segs: seq<nat>, p: nat)
    requires Arrives(slots, k, segs, p)
    ensures Walk(slots, k) == segs + Walk(slots, p)
    decreases p - k
  {
    if k < p {
      if slots[k].Blank? {
        ArrivesWalk(slots, k + 1, segs, p);
      } else {
        ArrivesWalk(slots, slots[k].next, segs[1..], p);
        FirstApart(segs, Walk(slots, p));
      }
    }
  }

  lemma FirstApart(segs: seq<nat>, rest: seq<nat>)
    requires segs != []
    ensures [segs[0]] + (segs[1..] + rest) == segs + rest
  {}

  // How the walk got to page p depends on no page from p on.
  lemma {:induction false} ArrivesAgrees(slots: seq<Slot>, slots': seq<Slot>, k: nat, segs: seq<nat>, p: nat)
    requires |slots| == |slots'| && forall i :: k <= i < p && i < |slots| ==> slots[i] == slots'[i]
    requires Arrives(slots, k, segs, p)
    ensures Arrives(slots', k, segs, p)
    decreases p - k
  {
    if k < p {
      if slots[k].Blank? {
        ArrivesAgrees(slots, slots', k + 1, segs, p);
      } else {
        ArrivesAgrees(slots, slots', slots[k].next, segs[1..], p);
      }
    }
  }

  lemma {:induction false} ArrivesAfter(slots: seq<Slot>, k: nat, segs: seq<nat>, p: nat, i: nat)
    requires Arrives(slots, k, segs, p) && i < |segs|
    ensures segs[i] < |slots| && slots[segs[i]].Segment? && slots[segs[i]].next > segs[i]
    ensures slots[segs[i]].next <= p
    decreases p - k
  {
    if slots[k].Blank? {
      ArrivesAfter(slots, k + 1, segs, p, i);
    } else if i > 0 {
      ArrivesAfter(slots, slots[k].next, segs[1..], p, i - 1);
    } else {
      ArrivesNoFurther(slots, slots[k].next, segs[1..], p);
    }
  }

  lemma ArrivesNoFurther(slots: seq<Slot>, k: nat, segs: seq<nat>, p: nat)
    requires Arrives(slots, k, segs, p)
    ensures k <= p
  {}

  // Arriving at a segment and passing it.
  lemma {:induction false} ArrivesPast(slots: seq<Slot>, k: nat, segs: seq<nat>, p: nat, n: nat)
    requires Arrives(slots, k, segs, p) && p < |slots| && slots[p].Segment? && slots[p].named && slots[p].next == n > p
    ensures Arrives(slots, k, segs + [p], n)
    decreases p - k
  {
    if k < p {
      if slots[k].Blank? {
        ArrivesPast(slots, k + 1, segs, p, n);
      } else {
        ArrivesPast(slots, slots[k].next, segs[1..], p, n);
        assert (segs + [p])[1..] == segs[1..] + [p];
      }
    }
  }

  // The walk arrives at each segment it visits, after those before it.
  lemma {:induction false} WalkArrives(slots: seq<Slot>, k: nat, i: nat)
    requires i < |Walk(slots, k)|
    ensures Arrives(slots, k, Walk(slots, k)[..i], Walk(slots, k)[i])
    decreases |slots| - k
  {
    var walk := Walk(slots, k);
    WalkMember(slots, k, i);
    if slots[k].Blank? {
      WalkArrives(slots, k + 1, i);
    } else if i > 0 {
      var rest := Walk(slots, slots[k].next);
      assert walk[1..] == rest;
      WalkArrives(slots, slots[k].next, i - 1);
      WalkMember(slots, slots[k].next, i - 1);
      assert walk[..i][1..] == rest[..i - 1];
    }
  }

  // The walk takes up no page twice.
  lemma {:induction false} ExtentsApart(slots: seq<Slot>, k: nat, i: nat, j: nat)
    requires i < j < |Walk(slots, k)|
    ensures var p, q := Walk(slots, k)[i], Walk(slots, k)[j];
            p < |slots| && slots[p].Segment? && p < slots[p].next <= q
    decreases |slots| - k
  {
    WalkMember(slots, k, i);
    if slots[k].Blank? {
      ExtentsApart(slots, k + 1, i, j);
    } else if i > 0 {
      ExtentsApart(slots, slots[k].next, i - 1, j - 1);
    } else {
      WalkMember(slots, slots[k].next, j - 1);
    }
  }

  // ---- replacing one segment ----

  // A segment put where the walk arrives: everything before it stays on the
  // walk, and the walk goes on at the page after it.
  lemma PutSegment(slots: seq<Slot>, slots': seq<Slot>, segs: seq<nat>, p: nat, n: nat)
    requires Arrives(slots, 0, segs, p) && p < |slots| == |slots'|
    requires forall i :: 0 <= i < p ==> slots[i] == slots'[i]
    requires slots'[p].Segment? && slots'[p].named && slots'[p].next == n > p
    ensures Arrives(slots', 0, segs, p)
    ensures Walk(slots', 0) == segs + [p] + Walk(slots', n)
  {
    ArrivesAgrees(slots, slots', 0, segs, p);
    ArrivesWalk(slots', 0, segs, p);
    WalkHere(slots', p, n);
    assert segs + ([p] + Walk(slots', n)) == segs + [p] + Walk(slots', n);
  }

  lemma WalkHere(slots: seq<Slot>, p: nat, n: nat)
    requires p < |slots| && slots[p].Segment? && slots[p].named && slots[p].next == n > p
    ensures Walk(slots, p) == [p] + Walk(slots, n)
  {}

  // When nothing from the page after it on has changed either, the walk goes on
  // there as before.
  lemma SlotsExtendWalk(slots: seq<Slot>, slots': seq<Slot>, segs: seq<nat>, p: nat, n: nat)
    requires Arrives(slots, 0, segs, p) && p < |slots| == |slots'| && n > p && slots'[p] == Segment(n, true, true)
    requires forall i :: 0 <= i < p ==> slots[i] == slots'[i]
    requires forall i :: n <= i < |slots| ==> slots[i] == slots'[i]
    ensures Walk(slots', 0) == segs + [p] + Walk(slots, n)
    ensures Arrives(slots', 0, segs, p)
  {
    var rest := Walk(slots, n);
    assert Walk(slots', n) == rest by {
      WalkAgrees(slots, slots', n);
    }
    PutSegment(slots, slots', segs, p, n);
  }

  // A change inside a segment's own pages leaves the walk as it was, as long as
  // its header still gives the same extent.
  lemma WalkUnchanged(slots: seq<Slot>, slots': seq<Slot>, i: nat)
    requires i < |Walk(slots, 0)| && |slots| == |slots'|
    requires var p := Walk(slots, 0)[i];
             && p < |slots| && slots[p].Segment? && slots[p].next > p && slots'[p] == slots[p]
             && forall k :: 0 <= k < |slots| && !(p < k < slots[p].next) ==> slots[k] == slots'[k]
    ensures Walk(slots', 0) == Walk(slots, 0)
  {
    var walk := Walk(slots, 0);
    var p := walk[i];
    WalkArrives(slots, 0, i);
    WalkMember(slots, 0, i);
    ArrivesWalk(slots, 0, walk[..i], p);
    PutSegment(slots, slots', walk[..i], p, slots[p].next);
    WalkAgrees(slots, slots', slots[p].next);
  }

  lemma {:induction false} BlankRun(slots: seq<Slot>, k: nat, p: nat)
    requires k <= p <= |slots| && forall i :: k <= i < p ==> slots[i].Blank?
    ensures Arrives(slots, k, [], p)
    decreases p - k
  {
    if k < p {
      BlankRun(slots, k + 1, p);
    }
  }

  lemma {:induction false} BlankWalk(slots: seq<Slot>, k: nat)
    requires forall i :: k <= i < |slots| ==> slots[i].Blank?
    ensures Walk(slots, k) == []
    decreases |slots| - k
  {
    if k < |slots| {
      BlankWalk(slots, k + 1);
    }
  }

  // When the header of a segment is lost, the segments before it stay, and the walk
  // goes on at the next page, into the body that was the segment's.
  lemma LostHeader(slots: seq<Slot>, slots': seq<Slot>, i: nat)
    requires i < |Walk(slots, 0)| && |slots| == |slots'|
    requires var p := Walk(slots, 0)[i];
             && p < |slots| && slots'[p].Blank? && forall k :: 0 <= k < |slots| && k != p ==> slots[k] == slots'[k]
    ensures Walk(slots', 0) == Walk(slots, 0)[..i] + Walk(slots, Walk(slots, 0)[i] + 1)
  {
    var walk := Walk(slots, 0);
    var p := walk[i];
    WalkArrives(slots, 0, i);
    ArrivesAgrees(slots, slots', 0, walk[..i], p);
    ArrivesWalk(slots', 0, walk[..i], p);
    WalkAgrees(slots, slots', p + 1);
  }

  // So it takes no other segment with it if no page of that body passes for a header.
  lemma LostAlone(slots: seq<Slot>, i: nat)
    requires i < |Walk(slots, 0)|
    requires var p := Walk(slots, 0)[i];
             && p < |slots| && slots[p].Segment? && p < slots[p].next <= |slots|
             && forall k :: p < k < slots[p].next ==> slots[k].Blank?
    ensures Walk(slots, Walk(slots, 0)[i] + 1) == Walk(slots, 0)[i + 1..]
  {
    var walk := Walk(slots, 0);
    var p := walk[i];
    WalkArrives(slots, 0, i);
    WalkMember(slots, 0, i);
    ArrivesWalk(slots, 0, walk[..i], p);
    assert Walk(slots, p) == [p] + Walk(slots, slots[p].next);
    BlankRun(slots, p + 1, slots[p].next);
    ArrivesWalk(slots, p + 1, [], slots[p].next);
  }
}
