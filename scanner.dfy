/** The feed scan of `get_resources`: pages are fetched one after another;
    the posts on each page are counted, checked against the id/date range
    and turned into resources, until an empty page, the anti-scraping
    block, or a post older than the lower bound ends the scan. Each fetch is
    an input outcome here. */
module Scanner {
  import opened Wrappers
  import opened Ordering
  import opened Feed
  import Boundary

  /** What one fetch of a page gives: HTTP 418 (the anti-scraping block),
      any other failure, or the decoded page (its `ok` flag, the
      `cardlistInfo.total` when present, and its cards). */
  datatype Outcome = Blocked | Failure | Fetched(ok: int, total: Option<int>, cards: seq<Card>)

  /** The loop variables of the scan. */
  datatype Scan = Scan(page: nat, empty: nat, total: int, amount: nat, exceed: bool, resources: seq<Resource>)

  /** How many empty pages in a row end the scan. */
  const Aware: nat := 1

  function Start(): Scan {
    Scan(1, 0, 0, 0, false, [])
  }

  /** The loop condition `empty < aware and not exceed`. */
  predicate Running(s: Scan) {
    s.empty < Aware && !s.exceed
  }

  /** `before` is kept at the front of `after`: resources are only appended. */
  predicate Appended(before: seq<Resource>, after: seq<Resource>) {
    |before| <= |after| && after[..|before|] == before
  }

  lemma AppendedTrans(a: seq<Resource>, b: seq<Resource>, c: seq<Resource>)
    requires Appended(a, b) && Appended(b, c)
    ensures Appended(a, c)
  {
    assert c[..|b|][..|a|] == c[..|a|];
  }

  /** One card of a page: pinned posts and non-posts are skipped; any
      other post is counted, marks the scan as exceeded when it lies below
      the lower bound, and adds its resources when it is in range. */
  function CardStep(s: Scan, card: Card, range: Boundary.Boundary, video: bool): (r: Scan)
    ensures r.page == s.page && r.empty == s.empty && r.total == s.total
    ensures r.amount == s.amount + if Counted(card) then 1 else 0
    ensures s.exceed ==> r.exceed
    ensures Appended(s.resources, r.resources)
  {
    if !Counted(card) then
      s
    else
      var m := card.mblog.value;
      var added := CardResources(card, range.lower, range.upper, video);
      var r := s.(amount := s.amount + 1,
                  exceed := s.exceed || BelowLower(range.lower, m.mid, m.date),
                  resources := s.resources + added);
      r
  }

  /** The cards of a page, in order. */
  function PageStep(s: Scan, cards: seq<Card>, range: Boundary.Boundary, video: bool): (r: Scan)
    ensures r.page == s.page && r.empty == s.empty && r.total == s.total
    ensures s.amount <= r.amount <= s.amount + |cards|
    ensures s.exceed ==> r.exceed
    ensures Appended(s.resources, r.resources)
  {
    if cards == [] then s
    else
      var before := PageStep(s, cards[..|cards| - 1], range, video);
      var r := CardStep(before, cards[|cards| - 1], range, video);
      AppendedTrans(s.resources, before.resources, r.resources);
      r
  }

  /** One pass of the loop body. */
  function Step(s: Scan, o: Outcome, range: Boundary.Boundary, video: bool): (r: Scan)
    ensures s.page <= r.page <= s.page + 1
    ensures s.amount <= r.amount
    ensures Appended(s.resources, r.resources)
  {
    match o
    case Blocked => s.(empty := Aware)
    case Failure => s
    case Fetched(ok, total, cards) =>
      var counted := s.(empty := if ok == 0 then s.empty + 1 else 0,
                        total := if s.total == 0 && total.Some? then total.value else s.total);
      var analysed := PageStep(counted, cards, range, video);
      analysed.(page := analysed.page + 1)
  }

  /** The scan from `s` over the outcomes still to come; it stops when the
      loop condition fails or the outcomes run out. */
  function Run(s: Scan, os: seq<Outcome>, range: Boundary.Boundary, video: bool): (r: Scan)
    ensures s.page <= r.page && s.amount <= r.amount
    ensures Appended(s.resources, r.resources)
    decreases |os|
  {
    if os == [] || !Running(s) then s
    else
      var t := Step(s, os[0], range, video);
      var r := Run(t, os[1..], range, video);
      AppendedTrans(s.resources, t.resources, r.resources);
      r
  }

  /** How many outcomes the scan takes. */
  function Consumed(s: Scan, os: seq<Outcome>, range: Boundary.Boundary, video: bool): (n: nat)
    ensures n <= |os|
    decreases |os|
  {
    if os == [] || !Running(s) then 0 else 1 + Consumed(Step(s, os[0], range, video), os[1..], range, video)
  }

  /** The card loop, one post at a time. */
  method AnalysePage(s: Scan, cards: seq<Card>, range: Boundary.Boundary, video: bool) returns (r: Scan)
    ensures r == PageStep(s, cards, range, video)
  {
    r := s;
    for i := 0 to |cards|
      invariant r == PageStep(s, cards[..i], range, video)
    {
      PageStepNext(s, cards, i, range, video);
      var card := cards[i];
      if card.mblog.None? {
        continue;
      }
      var mblog := card.mblog.value;
      if mblog.isTop {
        continue;
      }
      var mark := MarkOf(mblog);
      r := r.(amount := r.amount + 1);
      if BelowLower(range.lower, mblog.mid, mblog.date) {
        r := r.(exceed := true);
      }
      if BelowLower(range.lower, mblog.mid, mblog.date) || AboveUpper(range.upper, mblog.mid, mblog.date) {
        continue;
      }
      if mblog.pics.Some? {
        var resources := AppendPhotos(r.resources, mblog.pics.value, mark);
        r := r.(resources := resources);
      } else if mblog.pageInfo.Some? && video {
        if mblog.pageInfo.value.mediaInfo.Some? {
          var streams := BestStream(mblog.pageInfo.value.mediaInfo.value);
          if streams.Some? {
            r := r.(resources := r.resources + [Resource(streams.value, Video, mark)]);
          }
        }
      }
    }
    assert cards[..|cards|] == cards;
  }

  /** `get_resources`: the scan over the outcomes of successive fetches.
      Returns the resources found, the number of posts scanned and the
      number of fetches made. */
  method GetResources(outcomes: seq<Outcome>, range: Boundary.Boundary, video: bool)
    returns (resources: seq<Resource>, amount: nat, fetches: nat)
    ensures resources == Run(Start(), outcomes, range, video).resources
    ensures amount == Run(Start(), outcomes, range, video).amount
    ensures fetches == Consumed(Start(), outcomes, range, video)
  {
    var s := Start();
    var i := 0;
    while i < |outcomes| && Running(s)
      invariant 0 <= i <= |outcomes|
      invariant Run(s, outcomes[i..], range, video) == Run(Start(), outcomes, range, video)
      invariant i + Consumed(s, outcomes[i..], range, video) == Consumed(Start(), outcomes, range, video)
      decreases |outcomes| - i
    {
      RunStep(s, outcomes[i..], range, video);
      assert outcomes[i..][1..] == outcomes[i + 1..];
      s := PassOnce(s, outcomes[i], range, video);
      i := i + 1;
    }
    resources, amount, fetches := s.resources, s.amount, i;
  }

  /** The body of the page loop for one fetch outcome. */
  method PassOnce(s: Scan, o: Outcome, range: Boundary.Boundary, video: bool) returns (r: Scan)
    ensures r == Step(s, o, range, video)
  {
    r := s;
    match o {
      case Blocked =>
        r := r.(empty := Aware);
      case Failure =>
      case Fetched(ok, total, cards) =>
        r := r.(empty := if ok == 0 then r.empty + 1 else 0);
        if r.total == 0 && total.Some? {
          r := r.(total := total.value);
        }
        r := AnalysePage(r, cards, range, video);
        r := r.(page := r.page + 1);
    }
  }

  lemma PageStepNext(s: Scan, cards: seq<Card>, i: nat, range: Boundary.Boundary, video: bool)
    requires i < |cards|
    ensures PageStep(s, cards[..i + 1], range, video)
         == CardStep(PageStep(s, cards[..i], range, video), cards[i], range, video)
  {
    assert cards[..i + 1][..i] == cards[..i];
  }

  /** One pass of a running scan. */
  lemma RunStep(s: Scan, os: seq<Outcome>, range: Boundary.Boundary, video: bool)
    requires os != [] && Running(s)
    ensures Run(s, os, range, video) == Run(Step(s, os[0], range, video), os[1..], range, video)
    ensures Consumed(s, os, range, video) == 1 + Consumed(Step(s, os[0], range, video), os[1..], range, video)
  {
  }

  // ---- properties of a page ----

  /** The resources of the cards, in card order. */
  function AllResources(cards: seq<Card>, range: Boundary.Boundary, video: bool): seq<Resource> {
    if cards == [] then [] else CardResources(cards[0], range.lower, range.upper, video) + AllResources(cards[1..], range, video)
  }

  /** The number of posts that are not pinned. */
  function CountedCards(cards: seq<Card>): nat {
    if cards == [] then 0 else (if Counted(cards[0]) then 1 else 0) + CountedCards(cards[1..])
  }

  lemma {:induction false} AllResourcesAppend(cards: seq<Card>, card: Card, range: Boundary.Boundary, video: bool)
    ensures AllResources(cards + [card], range, video)
         == AllResources(cards, range, video) + CardResources(card, range.lower, range.upper, video)
  {
    if cards == [] {
      assert [card][1..] == [];
    } else {
      assert (cards + [card])[1..] == cards[1..] + [card];
      AllResourcesAppend(cards[1..], card, range, video);
    }
  }

  lemma {:induction false} CountedCardsAppend(cards: seq<Card>, card: Card)
    ensures CountedCards(cards + [card]) == CountedCards(cards) + if Counted(card) then 1 else 0
  {
    if cards == [] {
      assert [card][1..] == [];
    } else {
      assert (cards + [card])[1..] == cards[1..] + [card];
      CountedCardsAppend(cards[1..], card);
    }
  }

  /** Some unpinned post of `cards` lies below the lower bound. */
  predicate HasPostBelow(cards: seq<Card>, lower: Value) {
    exists k :: 0 <= k < |cards| && Counted(cards[k])
                && BelowLower(lower, cards[k].mblog.value.mid, cards[k].mblog.value.date)
  }

  /** A card appends its resources and counts and flags its post. */
  lemma CardStepMeaning(s: Scan, card: Card, range: Boundary.Boundary, video: bool)
    ensures var r := CardStep(s, card, range, video);
      r.resources == s.resources + CardResources(card, range.lower, range.upper, video)
      && (r.exceed <==> s.exceed || (Counted(card) && BelowLower(range.lower, card.mblog.value.mid, card.mblog.value.date)))
  {
    if !Counted(card) {
      assert s.resources + [] == s.resources;
    }
  }

  lemma HasPostBelowSnoc(init: seq<Card>, last: Card, lower: Value)
    ensures HasPostBelow(init + [last], lower) <==>
      HasPostBelow(init, lower) || (Counted(last) && BelowLower(lower, last.mblog.value.mid, last.mblog.value.date))
  {
    var cards := init + [last];
    if HasPostBelow(init, lower) {
      var k :| 0 <= k < |init| && Counted(init[k])
               && BelowLower(lower, init[k].mblog.value.mid, init[k].mblog.value.date);
      assert cards[k] == init[k];
    }
    if HasPostBelow(cards, lower) {
      var k :| 0 <= k < |cards| && Counted(cards[k])
               && BelowLower(lower, cards[k].mblog.value.mid, cards[k].mblog.value.date);
      if k < |init| {
        assert init[k] == cards[k];
      }
    }
    assert cards[|init|] == last;
  }

  /** A page leaves the page number, the empty-page count and the total
      alone; it counts exactly its unpinned posts, appends exactly their
      in-range resources in card order, and sets `exceed` exactly when one
      of its posts lies below the lower bound. */
  lemma {:induction false} PageStepMeaning(s: Scan, cards: seq<Card>, range: Boundary.Boundary, video: bool)
    ensures var r := PageStep(s, cards, range, video);
      r.page == s.page && r.empty == s.empty && r.total == s.total
      && r.amount == s.amount + CountedCards(cards)
      && r.resources == s.resources + AllResources(cards, range, video)
      && (r.exceed <==> s.exceed || HasPostBelow(cards, range.lower))
  {
    PageAmount(s, cards, range, video);
    PageResources(s, cards, range, video);
    PageExceed(s, cards, range, video);
  }

  lemma {:induction false} PageAmount(s: Scan, cards: seq<Card>, range: Boundary.Boundary, video: bool)
    ensures PageStep(s, cards, range, video).amount == s.amount + CountedCards(cards)
  {
    if cards != [] {
      var n := |cards| - 1;
      assert cards == cards[..n] + [cards[n]];
      PageAmount(s, cards[..n], range, video);
      CountedCardsAppend(cards[..n], cards[n]);
    }
  }

  lemma {:induction false} PageResources(s: Scan, cards: seq<Card>, range: Boundary.Boundary, video: bool)
    ensures PageStep(s, cards, range, video).resources == s.resources + AllResources(cards, range, video)
  {
    if cards != [] {
      var n := |cards| - 1;
      var init, last := cards[..n], cards[n];
      assert cards == init + [last];
      PageResources(s, init, range, video);
      AllResourcesAppend(init, last, range, video);
      var q := PageStep(s, init, range, video);
      var added := CardResources(last, range.lower, range.upper, video);
      CardStepMeaning(q, last, range, video);
      calc {
        PageStep(s, cards, range, video).resources;
        CardStep(q, last, range, video).resources;
        q.resources + added;
        (s.resources + AllResources(init, range, video)) + added;
        s.resources + (AllResources(init, range, video) + added);
      }
    } else {
      assert AllResources(cards, range, video) == [];
      assert s.resources + [] == s.resources;
    }
  }

  lemma {:induction false} PageExceed(s: Scan, cards: seq<Card>, range: Boundary.Boundary, video: bool)
    ensures PageStep(s, cards, range, video).exceed <==> s.exceed || HasPostBelow(cards, range.lower)
  {
    if cards != [] {
      var n := |cards| - 1;
      var init, last := cards[..n], cards[n];
      assert cards == init + [last];
      PageExceed(s, init, range, video);
      HasPostBelowSnoc(init, last, range.lower);
      CardStepMeaning(PageStep(s, init, range, video), last, range, video);
    }
  }

  /** A pinned post, or a card that is not a post, changes nothing. */
  lemma PinnedSkipped(s: Scan, card: Card, range: Boundary.Boundary, video: bool)
    requires card.mblog.None? || card.mblog.value.isTop
    ensures CardStep(s, card, range, video) == s
  {
  }

  // ---- properties of one pass ----

  /** The page number advances by one exactly on a fetched page. */
  lemma StepPage(s: Scan, o: Outcome, range: Boundary.Boundary, video: bool)
    ensures Step(s, o, range, video).page == s.page + if o.Fetched? then 1 else 0
  {
    if o.Fetched? {
      PageStepMeaning(s.(empty := if o.ok == 0 then s.empty + 1 else 0,
                         total := if s.total == 0 && o.total.Some? then o.total.value else s.total),
                      o.cards, range, video);
    }
  }

  /** A fetched page with `ok == 0` raises the empty-page count and so ends
      the scan, but its cards are still analysed; any other fetched page
      resets the count. */
  lemma FetchedEmpty(s: Scan, ok: int, total: Option<int>, cards: seq<Card>, range: Boundary.Boundary, video: bool)
    requires Running(s)
    ensures var r := Step(s, Fetched(ok, total, cards), range, video);
      (ok == 0 ==> r.empty == 1 && !Running(r))
      && (ok != 0 ==> r.empty == 0)
      && r.resources == s.resources + AllResources(cards, range, video)
  {
    PageStepMeaning(s.(empty := if ok == 0 then s.empty + 1 else 0,
                       total := if s.total == 0 && total.Some? then total.value else s.total),
                    cards, range, video);
  }

  /** The first known total is kept; later pages do not overwrite it. */
  lemma StepTotal(s: Scan, o: Outcome, range: Boundary.Boundary, video: bool)
    ensures s.total != 0 ==> Step(s, o, range, video).total == s.total
    ensures s.total == 0 && o.Fetched? && o.total.Some? ==> Step(s, o, range, video).total == o.total.value
  {
    if o.Fetched? {
      PageStepMeaning(s.(empty := if o.ok == 0 then s.empty + 1 else 0,
                         total := if s.total == 0 && o.total.Some? then o.total.value else s.total),
                      o.cards, range, video);
    }
  }

  // ---- properties of the whole scan ----

  /** The scan stops only because the loop condition fails or the outcomes
      are used up. */
  lemma {:induction false} RunStops(s: Scan, os: seq<Outcome>, range: Boundary.Boundary, video: bool)
    ensures !Running(Run(s, os, range, video)) || Consumed(s, os, range, video) == |os|
    decreases |os|
  {
    if os != [] && Running(s) {
      RunStops(Step(s, os[0], range, video), os[1..], range, video);
    }
  }

  /** A failed fetch leaves everything as it was: the same page is fetched
      again with the next outcome. */
  lemma FailureRetried(s: Scan, os: seq<Outcome>, range: Boundary.Boundary, video: bool)
    requires Running(s)
    ensures Run(s, [Failure] + os, range, video) == Run(s, os, range, video)
    ensures Consumed(s, [Failure] + os, range, video) == 1 + Consumed(s, os, range, video)
  {
    assert ([Failure] + os)[1..] == os;
  }

  /** The anti-scraping block ends the scan at once and keeps what was
      found so far. */
  lemma BlockedEnds(s: Scan, os: seq<Outcome>, range: Boundary.Boundary, video: bool)
    requires Running(s)
    ensures Run(s, [Blocked] + os, range, video) == s.(empty := Aware)
    ensures Consumed(s, [Blocked] + os, range, video) == 1
  {
    var t := s.(empty := Aware);
    assert ([Blocked] + os)[1..] == os;
    assert !Running(t);
  }

  /** The number of fetched pages among `os`. */
  function FetchedCount(os: seq<Outcome>): nat {
    if os == [] then 0 else (if os[0].Fetched? then 1 else 0) + FetchedCount(os[1..])
  }

  /** The final page number is one past the pages fetched successfully. */
  lemma {:induction false} RunPage(s: Scan, os: seq<Outcome>, range: Boundary.Boundary, video: bool)
    ensures Run(s, os, range, video).page == s.page + FetchedCount(os[..Consumed(s, os, range, video)])
    decreases |os|
  {
    var c := Consumed(s, os, range, video);
    if os == [] || !Running(s) {
      assert os[..c] == [];
    } else {
      var t := Step(s, os[0], range, video);
      RunPage(t, os[1..], range, video);
      StepPage(s, os[0], range, video);
      assert os[..c][1..] == os[1..][..c - 1];
    }
  }

  /** Every resource of a scan is in range. */
  predicate AllInRange(rs: seq<Resource>, range: Boundary.Boundary) {
    forall k :: 0 <= k < |rs| ==>
      !BelowLower(range.lower, rs[k].mark.mid, rs[k].mark.date)
      && !AboveUpper(range.upper, rs[k].mark.mid, rs[k].mark.date)
  }

  lemma {:induction false} AllResourcesInRange(cards: seq<Card>, range: Boundary.Boundary, video: bool)
    ensures AllInRange(AllResources(cards, range, video), range)
  {
    if cards != [] {
      AllResourcesInRange(cards[1..], range, video);
      var head := CardResources(cards[0], range.lower, range.upper, video);
      var rs := head + AllResources(cards[1..], range, video);
      forall k | 0 <= k < |rs|
        ensures !BelowLower(range.lower, rs[k].mark.mid, rs[k].mark.date)
                && !AboveUpper(range.upper, rs[k].mark.mid, rs[k].mark.date)
      {
        if k < |head| {
          assert rs[k] == head[k] && head[k] in head;
        } else {
          assert rs[k] == AllResources(cards[1..], range, video)[k - |head|];
        }
      }
    }
  }

  /** Resources are only ever appended, and every appended one lies inside
      the range. */
  lemma {:induction false} RunResources(s: Scan, os: seq<Outcome>, range: Boundary.Boundary, video: bool)
    requires AllInRange(s.resources, range)
    ensures var r := Run(s, os, range, video);
      |s.resources| <= |r.resources| && r.resources[..|s.resources|] == s.resources
      && AllInRange(r.resources, range)
    decreases |os|
  {
    if os != [] && Running(s) {
      var t := Step(s, os[0], range, video);
      StepInRange(s, os[0], range, video);
      RunResources(t, os[1..], range, video);
    }
  }

  /** One pass keeps every resource in range. */
  lemma StepInRange(s: Scan, o: Outcome, range: Boundary.Boundary, video: bool)
    requires AllInRange(s.resources, range)
    ensures AllInRange(Step(s, o, range, video).resources, range)
  {
    if o.Fetched? {
      var t := Step(s, o, range, video);
      var counted := s.(empty := if o.ok == 0 then s.empty + 1 else 0,
                        total := if s.total == 0 && o.total.Some? then o.total.value else s.total);
      PageStepMeaning(counted, o.cards, range, video);
      AllResourcesInRange(o.cards, range, video);
      var added := AllResources(o.cards, range, video);
      assert t.resources == s.resources + added;
      forall k | 0 <= k < |t.resources|
        ensures !BelowLower(range.lower, t.resources[k].mark.mid, t.resources[k].mark.date)
                && !AboveUpper(range.upper, t.resources[k].mark.mid, t.resources[k].mark.date)
      {
        if k >= |s.resources| {
          assert t.resources[k] == added[k - |s.resources|];
        }
      }
    }
  }

  /** Everything `get_resources` returns is inside the range. */
  lemma ResultInRange(os: seq<Outcome>, range: Boundary.Boundary, video: bool)
    ensures AllInRange(Run(Start(), os, range, video).resources, range)
  {
    RunResources(Start(), os, range, video);
  }

  /** A page holding a post below the lower bound is the last one fetched:
      the scan finishes with that page (its in-range posts still count). */
  lemma ExceedEnds(s: Scan, ok: int, total: Option<int>, cards: seq<Card>, os: seq<Outcome>,
                   range: Boundary.Boundary, video: bool, k: nat)
    requires Running(s)
    requires k < |cards| && Counted(cards[k])
    requires BelowLower(range.lower, cards[k].mblog.value.mid, cards[k].mblog.value.date)
    ensures Run(s, [Fetched(ok, total, cards)] + os, range, video) == Step(s, Fetched(ok, total, cards), range, video)
    ensures Consumed(s, [Fetched(ok, total, cards)] + os, range, video) == 1
  {
    var counted := s.(empty := if ok == 0 then s.empty + 1 else 0,
                      total := if s.total == 0 && total.Some? then total.value else s.total);
    PageStepMeaning(counted, cards, range, video);
    assert HasPostBelow(cards, range.lower);
    var t := Step(s, Fetched(ok, total, cards), range, video);
    assert !Running(t);
    var all := [Fetched(ok, total, cards)] + os;
    assert all[0] == Fetched(ok, total, cards) && all[1..] == os;
    assert Run(s, all, range, video) == Run(t, os, range, video);
    assert Consumed(s, all, range, video) == 1 + Consumed(t, os, range, video);
  }
}
