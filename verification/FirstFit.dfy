/** The regions of a virtual-memory pool as a list of page spans, and first fit on it. */
module FirstFit {
  import opened Words

  /** A region: its first page, counted from the pool's base, and its size in bytes.  A region always
      takes one page more than the whole pages in its size. */
  datatype Span = Span(page: nat, bytes: nat) {
    function Pages(): (n: nat) ensures n >= 1 { bytes / 4096 + 1 }
    function End(): nat { page + Pages() }
    predicate Covers(p: int) { page <= p < End() }
  }

  function PagesFor(bytes: nat): (n: nat) ensures n >= 1 { bytes / 4096 + 1 }

  /** Spans in order, without overlap, from page 0 on and below `limit`. */
  ghost predicate Sorted(l: seq<Span>, limit: nat) {
    && (l != [] ==> l[0].page == 0)
    && (forall k :: 0 <= k < |l| ==> l[k].End() <= limit)
    && (forall j, k :: 0 <= j < k < |l| ==> l[j].End() <= l[k].page)
  }

  ghost predicate Taken(l: seq<Span>, p: int) {
    exists k :: 0 <= k < |l| && l[k].Covers(p)
  }

  /** Where the gap behind span k ends. */
  function GapEnd(l: seq<Span>, k: nat, limit: nat): nat
    requires k < |l|
  {
    if k + 1 < |l| then l[k + 1].page else limit
  }

  /** The first span, from k on, with at least `need` pages behind it. */
  function FirstGap(l: seq<Span>, k: nat, need: nat, limit: nat): (r: Option<nat>)
    requires k <= |l|
    ensures r.Some? ==> k <= r.value < |l|
    decreases |l| - k
  {
    if k == |l| then None
    else if l[k].End() + need <= GapEnd(l, k, limit) then Some(k)
    else FirstGap(l, k + 1, need, limit)
  }

  function InsertAfter(l: seq<Span>, k: nat, bytes: nat): seq<Span>
    requires k < |l|
  {
    l[..k + 1] + [Span(l[k].End(), bytes)] + l[k + 1..]
  }

  function RemoveAt(l: seq<Span>, k: nat): seq<Span>
    requires k < |l|
  {
    l[..k] + l[k + 1..]
  }

  /** `need` consecutive pages from p on lie in the pool and are not taken. */
  ghost predicate Room(l: seq<Span>, p: nat, need: nat, limit: nat) {
    p + need <= limit && forall k :: 0 <= k < |l| ==> p + need <= l[k].page || l[k].End() <= p
  }

  lemma {:induction false} FirstGapIsFirst(l: seq<Span>, k: nat, need: nat, limit: nat)
    requires k <= |l|
    ensures var r := FirstGap(l, k, need, limit);
      && (r.Some? ==> l[r.value].End() + need <= GapEnd(l, r.value, limit))
      && forall j :: k <= j < (if r.Some? then r.value else |l|) ==> l[j].End() + need > GapEnd(l, j, limit)
    decreases |l| - k
  {
    if k < |l| {
      FirstGapIsFirst(l, k + 1, need, limit);
    }
  }

  lemma FirstGapStep(l: seq<Span>, k: nat, need: nat, limit: nat)
    requires k < |l|
    ensures FirstGap(l, k, need, limit) ==
      if l[k].End() + need <= GapEnd(l, k, limit) then Some(k)
      else if k + 1 == |l| then None
      else FirstGap(l, k + 1, need, limit)
  {
  }

  /** Room lies in the gap behind some span. */
  lemma {:induction false} RoomIsInGap(l: seq<Span>, p: nat, need: nat, limit: nat, k: nat) returns (j: nat)
    requires Sorted(l, limit) && need >= 1 && k < |l| && Room(l, p, need, limit) && l[k].End() <= p
    ensures k <= j < |l| && l[j].End() <= p && p + need <= GapEnd(l, j, limit)
    decreases |l| - k
  {
    if k + 1 < |l| && l[k + 1].End() <= p {
      j := RoomIsInGap(l, p, need, limit, k + 1);
    } else {
      j := k;
    }
  }

  lemma GapHasRoom(l: seq<Span>, k: nat, need: nat, limit: nat)
    requires Sorted(l, limit) && k < |l| && l[k].End() + need <= GapEnd(l, k, limit)
    ensures Room(l, l[k].End(), need, limit)
  {
    assert k + 1 < |l| ==> l[k + 1].page <= l[k + 1].End() <= limit;
    hide Span.End;
    var e := l[k].End();
    forall j | 0 <= j < |l|
      ensures e + need <= l[j].page || l[j].End() <= e
    {
      SpansInOrder(l, j, k, limit);
      SpansInOrder(l, k, j, limit);
    }
  }

  lemma SpansInOrder(l: seq<Span>, j: nat, k: nat, limit: nat)
    requires Sorted(l, limit) && j < |l| && k < |l|
    ensures j < k ==> l[j].End() <= l[k].page && GapEnd(l, j, limit) <= l[k].page && l[j].End() < l[k].End()
  {
    if j + 1 < k {
      assert l[j + 1].End() <= l[k].page;
    }
  }

  /** First fit finds the lowest room, and reports none exactly when there is none. */
  lemma FirstFitIsLowest(l: seq<Span>, need: nat, limit: nat)
    requires Sorted(l, limit) && l != [] && need >= 1
    ensures var r := FirstGap(l, 0, need, limit);
      if r == None then forall p: nat :: !Room(l, p, need, limit)
      else Room(l, l[r.value].End(), need, limit) && forall p: nat :: p < l[r.value].End() ==> !Room(l, p, need, limit)
  {
    hide *;
    var r := FirstGap(l, 0, need, limit);
    FirstGapIsFirst(l, 0, need, limit);
    forall p: nat | Room(l, p, need, limit)
      ensures r.Some? && l[r.value].End() <= p
    {
      RoomIsBehindFirst(l, p, need, limit);
      var j := RoomIsInGap(l, p, need, limit, 0);
      if r.Some? {
        SpansInOrder(l, r.value, j, limit);
      }
    }
    if r.Some? {
      GapHasRoom(l, r.value, need, limit);
    }
  }

  lemma RoomIsBehindFirst(l: seq<Span>, p: nat, need: nat, limit: nat)
    requires Sorted(l, limit) && l != [] && need >= 1 && Room(l, p, need, limit)
    ensures l[0].End() <= p
  {
  }

  // ---- Pages and bytes ----

  /** Byte o of the pool is one of those that a region was asked for. */
  ghost predicate InBytes(l: seq<Span>, o: int) {
    exists k :: 0 <= k < |l| && InSpan(l[k], o)
  }

  predicate InSpan(s: Span, o: int) { 4096 * s.page <= o < 4096 * s.page + s.bytes }

  /** It lies on the pages of a region, behind the region's last byte. */
  ghost predicate InSlack(l: seq<Span>, o: int) {
    exists k :: 0 <= k < |l| && BehindSpan(l[k], o)
  }

  predicate BehindSpan(s: Span, o: int) { 4096 * s.page + s.bytes <= o < 4096 * s.End() }

  lemma SpanBytes(s: Span, o: nat)
    ensures s.Covers(o / 4096) <==> InSpan(s, o) || BehindSpan(s, o)
    ensures !(InSpan(s, o) && BehindSpan(s, o))
  {
  }

  /** A page is taken when a byte on it is asked for or is slack; so the page test is exact for bytes
      exactly outside the slack, and every region has some. */
  lemma PageTestIsExactIff(l: seq<Span>, limit: nat, o: nat)
    requires Sorted(l, limit)
    ensures Taken(l, o / 4096) <==> InBytes(l, o) || InSlack(l, o)
    ensures (Taken(l, o / 4096) <==> InBytes(l, o)) <==> !InSlack(l, o)
  {
    forall k | 0 <= k < |l|
      ensures l[k].Covers(o / 4096) <==> InSpan(l[k], o) || BehindSpan(l[k], o)
    {
      SpanBytes(l[k], o);
    }
    hide Span.Covers, InSpan, BehindSpan;
    forall j, k | 0 <= j < |l| && 0 <= k < |l| && InSpan(l[j], o)
      ensures !BehindSpan(l[k], o)
    {
      NotBehindAnother(l, limit, j, k, o);
    }
  }

  lemma NotBehindAnother(l: seq<Span>, limit: nat, j: nat, k: nat, o: nat)
    requires Sorted(l, limit) && j < |l| && k < |l| && InSpan(l[j], o)
    ensures !BehindSpan(l[k], o)
  {
    SpanBytes(l[j], o);
    SpanBytes(l[k], o);
  }

  /** A region of two bytes: the third byte of its page passes the page test. */
  lemma SlackPasses()
    ensures Sorted([Span(0, 2)], 1) && Taken([Span(0, 2)], 2 / 4096) && !InBytes([Span(0, 2)], 2)
  {
    assert [Span(0, 2)][0].Covers(0);
  }

  // ---- One allocation, one release ----

  /** Where span j of l is after the insertion. */
  lemma Inserted(l: seq<Span>, k: nat, bytes: nat)
    requires k < |l|
    ensures var m := InsertAfter(l, k, bytes);
      && |m| == |l| + 1 && m[k + 1] == Span(l[k].End(), bytes)
      && (forall j :: 0 <= j <= k ==> m[j] == l[j])
      && (forall j :: k + 1 < j < |m| ==> m[j] == l[j - 1])
      && (forall j :: k + 1 <= j < |l| ==> m[j + 1] == l[j])
  {
  }

  lemma InsertedInOrder(l: seq<Span>, k: nat, bytes: nat, limit: nat, i: nat, j: nat)
    requires Sorted(l, limit) && k < |l| && l[k].End() + PagesFor(bytes) <= GapEnd(l, k, limit)
    requires i < j <= |l|
    ensures var m := InsertAfter(l, k, bytes); m[i].End() <= m[j].page
  {
    var s := Span(l[k].End(), bytes);
    assert s.End() == l[k].End() + PagesFor(bytes);
    Inserted(l, k, bytes);
    SortedMeans(l, limit);
    hide *;
    if j == k + 1 {
      SpansInOrder(l, i, k, limit);
    } else if i == k + 1 {
      SpansInOrder(l, k, j - 1, limit);
    }
  }

  /** A new region keeps the order. */
  lemma InsertKeepsSorted(l: seq<Span>, k: nat, bytes: nat, limit: nat)
    requires Sorted(l, limit) && k < |l| && l[k].End() + PagesFor(bytes) <= GapEnd(l, k, limit)
    ensures Sorted(InsertAfter(l, k, bytes), limit)
  {
    var m, s := InsertAfter(l, k, bytes), Span(l[k].End(), bytes);
    Inserted(l, k, bytes);
    SortedMeans(l, limit);
    assert s.End() == l[k].End() + PagesFor(bytes) <= limit && m[0] == l[0];
    hide *;
    forall i, j | 0 <= i < j < |m|
      ensures m[i].End() <= m[j].page
    {
      InsertedInOrder(l, k, bytes, limit, i, j);
    }
    SortedIf(m, limit);
  }

  lemma SortedIf(l: seq<Span>, limit: nat)
    requires l != [] ==> l[0].page == 0
    requires forall k :: 0 <= k < |l| ==> l[k].End() <= limit
    requires forall j, k :: 0 <= j < k < |l| ==> l[j].End() <= l[k].page
    ensures Sorted(l, limit)
  {
  }

  lemma SortedMeans(l: seq<Span>, limit: nat)
    requires Sorted(l, limit)
    ensures l != [] ==> l[0].page == 0
    ensures forall k :: 0 <= k < |l| ==> l[k].page <= l[k].End() <= limit
    ensures forall j, k :: 0 <= j < k < |l| ==> l[j].End() <= l[k].page
  {
  }

  /** It takes exactly its own pages. */
  lemma InsertTakes(l: seq<Span>, k: nat, bytes: nat)
    requires k < |l|
    ensures forall p :: Taken(InsertAfter(l, k, bytes), p) <==>
      Taken(l, p) || l[k].End() <= p < l[k].End() + PagesFor(bytes)
  {
    var m, s := InsertAfter(l, k, bytes), Span(l[k].End(), bytes);
    Inserted(l, k, bytes);
    assert forall p :: s.Covers(p) <==> l[k].End() <= p < l[k].End() + PagesFor(bytes);
    hide Span.Covers, InsertAfter;
    forall p
      ensures Taken(m, p) <==> Taken(l, p) || s.Covers(p)
    {
      if Taken(l, p) {
        var j :| 0 <= j < |l| && l[j].Covers(p);
        assert m[if j <= k then j else j + 1].Covers(p);
      } else if s.Covers(p) {
        assert m[k + 1].Covers(p);
      }
    }
  }

  lemma Removed(l: seq<Span>, k: nat)
    requires k < |l|
    ensures var m := RemoveAt(l, k);
      && |m| == |l| - 1
      && (forall j :: 0 <= j < k ==> m[j] == l[j])
      && (forall j :: k <= j < |m| ==> m[j] == l[j + 1])
      && (forall j :: k < j < |l| ==> m[j - 1] == l[j])
  {
  }

  /** Releasing a region other than the first keeps the order. */
  lemma RemoveKeepsSorted(l: seq<Span>, k: nat, limit: nat)
    requires Sorted(l, limit) && 1 <= k < |l|
    ensures Sorted(RemoveAt(l, k), limit)
  {
    hide Span.End, RemoveAt;
    Removed(l, k);
  }

  /** It frees exactly the pages of that region. */
  lemma RemoveFrees(l: seq<Span>, k: nat, limit: nat)
    requires Sorted(l, limit) && k < |l|
    ensures forall p :: Taken(RemoveAt(l, k), p) <==> Taken(l, p) && !l[k].Covers(p)
  {
    var m := RemoveAt(l, k);
    Removed(l, k);
    hide RemoveAt;
    forall p
      ensures Taken(m, p) <==> Taken(l, p) && !l[k].Covers(p)
    {
      if Taken(l, p) && !l[k].Covers(p) {
        var j :| 0 <= j < |l| && l[j].Covers(p);
        assert m[if j < k then j else j - 1].Covers(p);
      }
      if Taken(m, p) {
        var j :| 0 <= j < |m| && m[j].Covers(p);
        var i := if j < k then j else j + 1;
        assert l[i].Covers(p);
        SpansInOrder(l, i, k, limit);
        SpansInOrder(l, k, i, limit);
      }
    }
  }

  /** Releasing what was just allocated gives back the same regions. */
  lemma RemoveUndoesInsert(l: seq<Span>, k: nat, bytes: nat)
    requires k < |l|
    ensures RemoveAt(InsertAfter(l, k, bytes), k + 1) == l
  {
  }

  /** The position of the region that starts at a page address, or |l|. */
  function Find(l: seq<Span>, k: nat, base: int, start: int): (r: nat)
    requires k <= |l|
    ensures k <= r <= |l| && (r < |l| ==> start == base + 4096 * l[r].page)
    ensures forall j :: k <= j < r ==> start != base + 4096 * l[j].page
    decreases |l| - k
  {
    if k == |l| || start == base + 4096 * l[k].page then k else Find(l, k + 1, base, start)
  }

  lemma FindStep(l: seq<Span>, k: nat, base: int, start: int)
    requires k < |l|
    ensures Find(l, k, base, start) ==
      if start == base + 4096 * l[k].page then k else if k + 1 == |l| then |l| else Find(l, k + 1, base, start)
  {
  }

  // ---- Runs ----

  /** allocate a number of bytes, or release the k-th region. */
  datatype Event = Allocate(bytes: nat) | Release(k: nat)

  predicate Permitted(l: seq<Span>, e: Event, limit: nat) {
    match e
    case Allocate(bytes) => 2 <= bytes && (l == [] ==> PagesFor(bytes) <= limit)
    case Release(k) => 1 <= k < |l|
  }

  function Step(l: seq<Span>, e: Event, limit: nat): seq<Span>
    requires Permitted(l, e, limit)
  {
    match e
    case Allocate(bytes) =>
      if l == [] then [Span(0, bytes)]
      else (match FirstGap(l, 0, PagesFor(bytes), limit)
            case None => l
            case Some(k) => InsertAfter(l, k, bytes))
    case Release(k) => RemoveAt(l, k)
  }

  lemma StepKeepsSorted(l: seq<Span>, e: Event, limit: nat)
    requires Sorted(l, limit) && Permitted(l, e, limit)
    ensures Sorted(Step(l, e, limit), limit)
  {
    match e {
      case Allocate(bytes) =>
        if l != [] {
          FirstGapIsFirst(l, 0, PagesFor(bytes), limit);
          match FirstGap(l, 0, PagesFor(bytes), limit) {
            case None =>
            case Some(k) => InsertKeepsSorted(l, k, bytes, limit);
          }
        }
      case Release(k) => RemoveKeepsSorted(l, k, limit);
    }
  }

  ghost predicate Reaches(l: seq<Span>, es: seq<Event>, limit: nat, m: seq<Span>)
    decreases |es|
  {
    if es == [] then m == l
    else Permitted(l, es[0], limit) && Reaches(Step(l, es[0], limit), es[1..], limit, m)
  }

  /** After any permitted run the regions are in order, inside the pool, and no page is in two. */
  lemma {:induction false} RunKeepsRegionsDisjoint(l: seq<Span>, es: seq<Event>, limit: nat, m: seq<Span>)
    requires Sorted(l, limit) && Reaches(l, es, limit, m)
    ensures Sorted(m, limit)
    ensures forall j, k, p :: 0 <= j < |m| && 0 <= k < |m| && m[j].Covers(p) && m[k].Covers(p) ==> j == k && p < limit
    decreases |es|
  {
    if es != [] {
      StepKeepsSorted(l, es[0], limit);
      RunKeepsRegionsDisjoint(Step(l, es[0], limit), es[1..], limit, m);
    }
  }
}
