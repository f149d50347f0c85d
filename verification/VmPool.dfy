/** The virtual-memory pool: a doubly linked list of regions beside a bitmap of pages. */
module VmPool {
  import opened Words
  import opened FirstFit

  class Region {
    var startAddress: Word
    var numberBytes: Word
    var numberPages: nat
    var last: Region?
    var next: Region?

    constructor (start: Word, bytes: Word)
      ensures startAddress == start && numberBytes == bytes && numberPages == bytes / 4096 + 1
      ensures last == null && next == null
    {
      startAddress, numberBytes, numberPages := start, bytes, bytes / 4096 + 1;
      last, next := null, null;
    }
  }

  class VmPool {
    const baseAddress: Word
    const size: Word
    const totalPages: nat
    const indicator: array<bool>   // true: the page belongs to a region
    var first: Region?
    ghost var regions: seq<Region>

    /** The number of pages that addresses of the pool reach. */
    ghost function Limit(): (n: nat)
      ensures size > 0 ==> 4096 * (n - 1) < size <= 4096 * n
    {
      if size == 0 then 0 else (size - 1) / 4096 + 1
    }

    /** A non-empty pool with its last page inside the address space, and the page table's null kept out. */
    ghost predicate Shape() {
      && 0 < baseAddress && 0 < size && totalPages == size / 4096 + 1 && indicator.Length == totalPages
      && baseAddress + 4096 * totalPages <= WORD_LIMIT
    }

    ghost predicate Linked()
      reads this, regions
    {
      && (first == null <==> regions == [])
      && (regions != [] ==> first == regions[0] && regions[0].last == null && regions[|regions| - 1].next == null)
      && (forall j, k :: 0 <= j < k < |regions| ==> regions[j] != regions[k])
      && (forall k {:trigger regions[k].next} :: 0 <= k < |regions| - 1 ==> regions[k].next == regions[k + 1])
      && (forall k {:trigger regions[k].last} :: 1 <= k < |regions| ==> regions[k].last == regions[k - 1])
    }

    /** A region starts at a page boundary of the pool. */
    ghost predicate Placed(r: Region)
      reads r`startAddress, r`numberBytes, r`numberPages
    {
      && baseAddress <= r.startAddress && (r.startAddress - baseAddress) % 4096 == 0
      && r.numberPages == r.numberBytes / 4096 + 1
    }

    ghost predicate AllPlaced()
      reads `regions, regions`startAddress, regions`numberBytes, regions`numberPages
    {
      PlacedAll(regions)
    }

    ghost predicate PlacedAll(rs: seq<Region>)
      reads rs`startAddress, rs`numberBytes, rs`numberPages
    {
      forall k :: 0 <= k < |rs| ==> Placed(rs[k])
    }

    ghost function SpanOf(r: Region): Span
      reads r`startAddress, r`numberBytes
    {
      Span(if baseAddress <= r.startAddress then (r.startAddress - baseAddress) / 4096 else 0, r.numberBytes)
    }

    ghost function SpansOf(rs: seq<Region>): (l: seq<Span>)
      reads rs`startAddress, rs`numberBytes
      ensures |l| == |rs| && forall k :: 0 <= k < |l| ==> l[k] == SpanOf(rs[k])
    {
      if rs == [] then [] else SpansOf(rs[..|rs| - 1]) + [SpanOf(rs[|rs| - 1])]
    }

    ghost function Spans(): (l: seq<Span>)
      reads `regions, regions`startAddress, regions`numberBytes
      ensures |l| == |regions| && forall k :: 0 <= k < |l| ==> l[k] == SpanOf(regions[k])
    {
      SpansOf(regions)
    }

    /** List and bitmap agree. */
    ghost predicate Valid()
      reads this, regions, indicator
    {
      && Shape() && Linked()
      && AllPlaced()
      && Sorted(Spans(), Limit())
      && (forall p :: 0 <= p < totalPages ==> (indicator[p] <==> Taken(Spans(), p)))
    }

    constructor (base: Word, bytes: Word)
      requires 0 < base && 0 < bytes && base + 4096 * (bytes / 4096 + 1) <= WORD_LIMIT
      ensures Valid() && baseAddress == base && size == bytes && Spans() == []
    {
      baseAddress, size, totalPages := base, bytes, bytes / 4096 + 1;
      indicator := new bool[bytes / 4096 + 1];
      first, regions := null, [];
      new;
      var i := 0;
      while i <= totalPages - 1
        modifies indicator
        invariant 0 <= i <= totalPages
        invariant forall p :: 0 <= p < i ==> !indicator[p]
      {
        indicator[i] := false;
        i := i + 1;
      }
    }

    /** False for an address outside the pool or on a page of no region. */
    method IsLegitimate(address: Word) returns (r: bool)
      requires Valid()
      ensures r <==> baseAddress <= address < baseAddress + size && Taken(Spans(), (address - baseAddress) / 4096)
      // in terms of bytes: in the pool the answer is right exactly outside the slack behind the regions,
      // beyond it exactly where no region reaches
      ensures baseAddress <= address ==>
        ((r <==> InBytes(Spans(), address - baseAddress)) <==>
          if address < baseAddress + size then !InSlack(Spans(), address - baseAddress)
          else !InBytes(Spans(), address - baseAddress))
    {
      if baseAddress <= address {
        PageTestIsExactIff(Spans(), Limit(), address - baseAddress);
      }
      if address < baseAddress || address > baseAddress + size - 1 {
        return false;
      }
      var i := (address - baseAddress) / 4096;
      return indicator[i];
    }

    // ---- Allocation ----

    lemma GapPages(k: nat)
      requires Valid() && k < |regions|
      ensures var l := Spans();
        && l[k].End() <= GapEnd(l, k, Limit()) <= Limit() <= totalPages
        && l[k].page < l[k].End() && indicator[l[k].End() - 1]
        && forall p :: l[k].End() <= p < GapEnd(l, k, Limit()) ==> !indicator[p]
    {
      var l := Spans();
      assert l[k].Covers(l[k].End() - 1) && Taken(l, l[k].End() - 1);
      assert k + 1 < |l| ==> l[k].End() <= l[k + 1].page < l[k + 1].End() <= Limit();
      forall p | l[k].End() <= p < GapEnd(l, k, Limit())
        ensures !Taken(l, p)
      {
        forall j | 0 <= j < |l|
          ensures !l[j].Covers(p)
        {
          SpansInOrder(l, j, k, Limit());
          SpansInOrder(l, k, j, Limit());
        }
      }
    }

    /** The last page of a region, and the address just behind it, stay inside the address space. */
    lemma RegionPages(k: nat)
      requires Valid() && k < |regions|
      ensures var r, s := regions[k], Spans()[k];
        && r.startAddress == baseAddress + 4096 * s.page
        && r.startAddress + r.numberBytes < WORD_LIMIT
        && (r.startAddress + r.numberBytes - baseAddress) / 4096 == s.End() - 1
        && (0 < k ==> 0 < s.page)
        && (0 < s.page ==> (r.startAddress - 1 - baseAddress) / 4096 == s.page - 1)
    {
      assert Placed(regions[k]);
      var r, s := regions[k], Spans()[k];
      assert s.End() <= Limit();
      assert r.numberBytes < 4096 * s.Pages();
    }

    /** Count the free pages from..to; only those from e on are free. */
    method CountFree(from: nat, to: int, ghost e: nat) returns (counter: nat)
      requires indicator.Length == totalPages && from <= e <= to + 1 <= totalPages
      requires forall p :: from <= p < e ==> indicator[p]
      requires forall p :: e <= p <= to ==> !indicator[p]
      ensures counter == to + 1 - e
    {
      counter := 0;
      var i := from;
      while i <= to
        invariant from <= i <= to + 1
        invariant counter == if i <= e then 0 else i - e
      {
        if !indicator[i] {
          counter := counter + 1;
        }
        i := i + 1;
      }
    }

    method SetPages(from: nat, count: nat)
      requires indicator.Length == totalPages && from + count <= totalPages
      modifies indicator
      ensures forall p :: 0 <= p < totalPages ==> indicator[p] == (old(indicator[p]) || from <= p < from + count)
    {
      var i := from;
      while i <= from + count - 1
        invariant from <= i <= from + count
        invariant forall p :: 0 <= p < totalPages ==> indicator[p] == (old(indicator[p]) || from <= p < i)
      {
        indicator[i] := true;
        i := i + 1;
      }
    }

    /** Put a new region behind z, the k-th. */
    method InsertBehind(z: Region, ghost k: nat, start: Word, bytes: Word) returns (r: Region)
      requires Linked() && k < |regions| && z == regions[k]
      modifies `regions, regions`last, regions`next
      ensures fresh(r) && r.startAddress == start && r.numberBytes == bytes && r.numberPages == bytes / 4096 + 1
      ensures Linked() && regions == old(regions)[..k + 1] + [r] + old(regions)[k + 1..]
    {
      ghost var rs := regions;
      r := new Region(start, bytes);
      if z.next != null {
        r.next := z.next;
        z.next.last := r;
      }
      z.next := r;
      r.last := z;
      regions := rs[..k + 1] + [r] + rs[k + 1..];
      assert regions[k + 1] == r && (forall j :: 0 <= j <= k ==> regions[j] == rs[j]);
      assert forall j :: k + 1 < j < |regions| ==> regions[j] == rs[j - 1];
    }

    lemma SpansAfterInsert(rs: seq<Region>, l: seq<Span>, k: nat, r: Region, bytes: nat)
      requires k < |rs| == |l| && forall j :: 0 <= j < |rs| ==> l[j] == SpanOf(rs[j])
      requires regions == rs[..k + 1] + [r] + rs[k + 1..] && SpanOf(r) == Span(l[k].End(), bytes)
      ensures Spans() == InsertAfter(l, k, bytes)
    {
      hide SpanOf, Span.End;
      Inserted(l, k, bytes);
      assert forall j :: 0 <= j < |regions| ==>
          regions[j] == if j <= k then rs[j] else if j == k + 1 then r else rs[j - 1];
    }

    /** The bitmap was that of l, and the pages of the new region have been set. */
    ghost predicate Marked(l: seq<Span>, k: nat, bytes: nat, before: seq<bool>)
      reads indicator
      requires k < |l|
    {
      && |before| == indicator.Length == totalPages
      && (forall p :: 0 <= p < totalPages ==> (before[p] <==> Taken(l, p)))
      && (forall p :: 0 <= p < totalPages ==>
            indicator[p] == (before[p] || l[k].End() <= p < l[k].End() + PagesFor(bytes)))
    }

    lemma ValidAfterInsert(l: seq<Span>, k: nat, bytes: nat, before: seq<bool>)
      requires k < |l| && Sorted(l, Limit()) && l[k].End() + PagesFor(bytes) <= GapEnd(l, k, Limit())
      requires Shape() && Linked() && AllPlaced() && Spans() == InsertAfter(l, k, bytes)
      requires Marked(l, k, bytes, before)
      ensures Valid()
    {
      InsertTakes(l, k, bytes);
      InsertKeepsSorted(l, k, bytes, Limit());
      hide InsertAfter, Taken, Sorted, Span.End, PagesFor, Linked, AllPlaced, GapEnd;
    }

    lemma PlacedAfterInsert(rs: seq<Region>, k: nat, r: Region)
      requires k < |rs| && regions == rs[..k + 1] + [r] + rs[k + 1..]
      requires Placed(r) && forall j :: 0 <= j < |rs| ==> Placed(rs[j])
      ensures forall j :: 0 <= j < |regions| ==> Placed(regions[j])
    {
      hide Placed;
      assert forall j :: 0 <= j < |regions| ==>
          regions[j] == if j <= k then rs[j] else if j == k + 1 then r else rs[j - 1];
    }

    /** Link a region for the gap behind z. */
    method LinkBehind(z: Region, ghost k: nat, page: nat, bytes: Word) returns (address: Word)
      requires Linked() && k < |regions| && z == regions[k] && page == Spans()[k].End()
      requires AllPlaced() && baseAddress + 4096 * page < WORD_LIMIT
      modifies `regions, regions`last, regions`next
      ensures Linked() && AllPlaced()
      ensures Spans() == InsertAfter(old(Spans()), k, bytes)
      ensures address == baseAddress + 4096 * page
    {
      hide InsertAfter, Span.End, Linked;
      ghost var l, rs := Spans(), regions;
      address := page * 4096 + baseAddress;
      ghost var r := InsertBehind(z, k, address, bytes);
      SpansAfterInsert(rs, l, k, r, bytes);
      PlacedAfterInsert(rs, k, r);
    }

    lemma Parts()
      requires Valid()
      ensures Shape() && Linked() && AllPlaced() && Sorted(Spans(), Limit())
    {
    }

    method MarkGap(ghost k: nat, page: nat, bytes: Word)
      requires Valid() && k < |regions| && page == Spans()[k].End()
      requires page + PagesFor(bytes) <= GapEnd(Spans(), k, Limit())
      modifies indicator
      ensures Marked(old(Spans()), k, bytes, old(indicator[..])) && baseAddress + 4096 * page < WORD_LIMIT
    {
      GapPages(k);
      hide AllPlaced, Sorted, Taken, GapEnd, Span.End, Linked, Limit;
      SetPages(page, bytes / 4096 + 1);
    }

    /** Mark the pages and link the region into the gap behind z. */
    method Place(z: Region, ghost k: nat, page: nat, bytes: Word) returns (address: Word)
      requires Valid() && k < |regions| && z == regions[k] && page == Spans()[k].End()
      requires page + PagesFor(bytes) <= GapEnd(Spans(), k, Limit())
      modifies `regions, regions`last, regions`next, indicator
      ensures Valid() && Spans() == InsertAfter(old(Spans()), k, bytes)
      ensures address == baseAddress + 4096 * page
    {
      hide *;
      ghost var l, before := Spans(), indicator[..];
      Parts();
      MarkGap(k, page, bytes);
      address := LinkBehind(z, k, page, bytes);
      ValidAfterInsert(l, k, bytes, before);
    }

    /** First fit.  The first allocation is not checked against the size of the pool. */
    method Allocate(bytes: Word) returns (address: Word)
      requires Valid() && Permitted(Spans(), FirstFit.Allocate(bytes), Limit())
      modifies this, regions`last, regions`next, indicator
      ensures Valid() && Spans() == Step(old(Spans()), FirstFit.Allocate(bytes), Limit())
      ensures address == Granted(old(Spans()), bytes) && AtLowestRoom(old(Spans()), bytes / 4096 + 1, address)
      ensures TakesFrom(old(Spans()), bytes / 4096 + 1, address, Spans())
    {
      GrantedIsLowest(Spans(), bytes);
      AllocationTakes(Spans(), bytes);
      hide Valid, AtLowestRoom, TakesFrom, Granted, FirstFit.Step;
      if first == null {
        address := AllocateFirst(bytes);
      } else {
        address := Search(bytes, bytes / 4096 + 1);
      }
    }

    /** The address that a request gets; 0 when no gap is large enough. */
    ghost function Granted(l: seq<Span>, bytes: nat): int {
      if l == [] then baseAddress
      else match FirstGap(l, 0, PagesFor(bytes), Limit())
           case None => 0
           case Some(k) => baseAddress + 4096 * l[k].End()
    }

    /** The lowest place in the pool with room for that many pages, or 0 when there is none. */
    ghost predicate AtLowestRoom(l: seq<Span>, need: nat, address: int) {
      if address == 0 then forall p: nat :: !Room(l, p, need, Limit())
      else
        && baseAddress <= address && (address - baseAddress) % 4096 == 0
        && var page := (address - baseAddress) / 4096;
           Room(l, page, need, Limit()) && forall p: nat :: p < page ==> !Room(l, p, need, Limit())
    }

    /** List l' has that many pages from the address on taken, besides those of l. */
    ghost predicate TakesFrom(l: seq<Span>, need: nat, address: int, l': seq<Span>) {
      forall p :: Taken(l', p) <==>
        Taken(l, p) || (address != 0 && address <= baseAddress + 4096 * p < address + 4096 * need)
    }

    lemma FirstSpan(bytes: nat)
      requires Shape() && PagesFor(bytes) <= Limit()
      ensures Sorted([Span(0, bytes)], Limit()) && bytes / 4096 + 1 <= totalPages
      ensures forall p :: Taken([Span(0, bytes)], p) <==> 0 <= p < bytes / 4096 + 1
    {
      var s := Span(0, bytes);
      assert [s][0] == s;
      assert forall p :: Taken([s], p) <==> s.Covers(p);
    }

    lemma AllocationTakes(l: seq<Span>, bytes: nat)
      requires Shape() && FirstFit.Permitted(l, FirstFit.Allocate(bytes), Limit())
      ensures TakesFrom(l, bytes / 4096 + 1, Granted(l, bytes), FirstFit.Step(l, FirstFit.Allocate(bytes), Limit()))
    {
      if l == [] {
        FirstSpan(bytes);
      } else {
        match FirstGap(l, 0, PagesFor(bytes), Limit())
        case None =>
        case Some(k) => InsertTakes(l, k, bytes);
      }
      hide Taken, InsertAfter, Limit, Span.End, FirstGap;
    }

    lemma GrantedIsLowest(l: seq<Span>, bytes: nat)
      requires Shape() && Sorted(l, Limit()) && (l == [] ==> PagesFor(bytes) <= Limit())
      ensures AtLowestRoom(l, bytes / 4096 + 1, Granted(l, bytes))
    {
      if l != [] {
        FirstFitIsLowest(l, PagesFor(bytes), Limit());
      }
      hide Room, Sorted, FirstGap, Limit, Span.End;
    }

    method AllocateFirst(bytes: Word) returns (address: Word)
      requires Valid() && regions == [] && PagesFor(bytes) <= Limit()
      modifies this, indicator
      ensures Valid() && Spans() == [Span(0, bytes)] && address == baseAddress
    {
      assert Shape() && forall p :: 0 <= p < totalPages ==> !indicator[p];
      FirstSpan(bytes);
      hide *;
      first := new Region(baseAddress, bytes);
      regions := [first];
      SetPages(0, bytes / 4096 + 1);
      OneRegionIsValid(first, bytes);
      return baseAddress;
    }

    lemma OneRegionIsValid(r: Region, bytes: Word)
      requires Shape() && regions == [r] && first == r && r.last == null && r.next == null
      requires r.startAddress == baseAddress && r.numberBytes == bytes && r.numberPages == bytes / 4096 + 1
      requires PagesFor(bytes) <= Limit() && forall p :: 0 <= p < totalPages ==> indicator[p] == (p < bytes / 4096 + 1)
      ensures Valid() && Spans() == [Span(0, bytes)]
    {
      FirstSpan(bytes);
      hide Sorted, Taken, Limit, PagesFor;
    }

    lemma Neighbour(k: nat)
      requires Valid() && k < |regions|
      ensures first == regions[0]
      ensures if k + 1 == |regions| then regions[k].next == null else regions[k].next == regions[k + 1]
    {
    }

    /** The gap behind region k in the numbers that the code computes. */
    lemma GapNumbers(k: nat)
      requires Valid() && k < |regions|
      ensures var r, e, g := regions[k], Spans()[k].End(), GapEnd(Spans(), k, Limit());
        && r.startAddress + r.numberBytes < WORD_LIMIT
        && baseAddress <= r.startAddress && (r.startAddress + r.numberBytes - baseAddress) / 4096 == e - 1
        && 1 <= e <= g <= totalPages == indicator.Length
        && indicator[e - 1] && (forall p :: e <= p < g ==> !indicator[p])
        && 1 <= size
        && if k + 1 < |regions| then
             && baseAddress < regions[k + 1].startAddress
             && (regions[k + 1].startAddress - 1 - baseAddress) / 4096 + 1 == g
           else (size - 1) / 4096 + 1 == g
    {
      RegionPages(k);
      GapPages(k);
      if k + 1 < |regions| {
        RegionPages(k + 1);
      }
    }

    /** The gap behind z: the page its last byte is in, and the number of free pages after it. */
    method Gap(z: Region, ghost k: nat) returns (fpindex: nat, counter: nat)
      requires Valid() && k < |regions| && z == regions[k]
      ensures fpindex + 1 == Spans()[k].End() && fpindex < indicator.Length && indicator[fpindex]
      ensures fpindex + 1 + counter == GapEnd(Spans(), k, Limit())
    {
      Neighbour(k);
      GapNumbers(k);
      hide *;
      fpindex := (z.startAddress + z.numberBytes - baseAddress) / 4096;
      var lpindex := (size - 1) / 4096;
      if z.next != null {
        lpindex := (z.next.startAddress - 1 - baseAddress) / 4096;
      }
      counter := CountFree(fpindex, lpindex, fpindex + 1);
    }

    /** The walk along the gaps.  The first region stays at the base of the pool, so there is no space
        before it. */
    method Search(bytes: Word, need: nat) returns (address: Word)
      requires Valid() && regions != [] && need == PagesFor(bytes)
      modifies `regions, regions`last, regions`next, indicator
      ensures Valid()
      ensures match FirstGap(old(Spans()), 0, need, Limit())
        case None => Spans() == old(Spans()) && address == 0
        case Some(k) =>
          && Spans() == InsertAfter(old(Spans()), k, bytes)
          && address == baseAddress + 4096 * old(Spans())[k].End()
    {
      hide *;
      ghost var l, k: nat := Spans(), 0;
      Neighbour(0);
      var z := first;
      var fpindex: nat, counter: nat := Gap(z, k);
      while z.next != null && counter < need
        invariant k < |regions| && z == regions[k]
        invariant FirstGap(l, 0, need, Limit()) == FirstGap(l, k, need, Limit())
        invariant fpindex + 1 == l[k].End() && fpindex < indicator.Length && indicator[fpindex]
        invariant fpindex + 1 + counter == GapEnd(l, k, Limit())
        modifies {}
        decreases |regions| - k
      {
        Neighbour(k);
        FirstGapStep(l, k, need, Limit());
        z := z.next;
        k := k + 1;
        fpindex, counter := Gap(z, k);
      }
      Neighbour(k);
      FirstGapStep(l, k, need, Limit());
      if counter >= need {
        var page := if indicator[fpindex] then fpindex + 1 else fpindex;
        address := Place(z, k, page, bytes);
      } else {
        address := 0;
      }
    }

    // ---- Release ----

    method ClearPages(from: nat, count: nat)
      requires indicator.Length == totalPages && from + count <= totalPages
      modifies indicator
      ensures forall p :: 0 <= p < totalPages ==> indicator[p] == (old(indicator[p]) && !(from <= p < from + count))
    {
      var i := from;
      while i <= from + count - 1
        invariant from <= i <= from + count
        invariant forall p :: 0 <= p < totalPages ==> indicator[p] == (old(indicator[p]) && !(from <= p < i))
      {
        indicator[i] := false;
        i := i + 1;
      }
    }

    /** Take z, the k-th region but not the first, out of the list. */
    method Unlink(z: Region, ghost k: nat)
      requires Linked() && 1 <= k < |regions| && z == regions[k]
      modifies `regions, regions`last, regions`next
      ensures Linked() && regions == old(regions)[..k] + old(regions)[k + 1..]
    {
      ghost var rs := regions;
      if z.next != null {
        z.next.last := z.last;
        z.last.next := z.next;
      } else {
        z.last.next := null;
      }
      regions := rs[..k] + rs[k + 1..];
      assert forall j :: 0 <= j < |regions| ==> regions[j] == rs[if j < k then j else j + 1];
    }

    lemma SpansAfterRemove(rs: seq<Region>, l: seq<Span>, k: nat)
      requires k < |rs| == |l| && (forall j :: 0 <= j < |rs| ==> l[j] == SpanOf(rs[j])) && PlacedAll(rs)
      requires regions == rs[..k] + rs[k + 1..]
      ensures Spans() == RemoveAt(l, k) && AllPlaced()
    {
      Removed(l, k);
      hide SpanOf, RemoveAt;
      assert forall j :: 0 <= j < |regions| ==> regions[j] == rs[if j < k then j else j + 1];
    }

    ghost predicate Cleared(l: seq<Span>, k: nat, before: seq<bool>)
      reads indicator
      requires k < |l|
    {
      && |before| == indicator.Length == totalPages
      && (forall p :: 0 <= p < totalPages ==> (before[p] <==> Taken(l, p)))
      && (forall p :: 0 <= p < totalPages ==> indicator[p] == (before[p] && !l[k].Covers(p)))
    }

    lemma ValidAfterRemove(l: seq<Span>, k: nat, before: seq<bool>)
      requires 1 <= k < |l| && Sorted(l, Limit()) && Cleared(l, k, before)
      requires Shape() && Linked() && AllPlaced() && Spans() == RemoveAt(l, k)
      ensures Valid()
    {
      RemoveFrees(l, k, Limit());
      RemoveKeepsSorted(l, k, Limit());
      hide RemoveAt, Taken, Sorted, Linked, AllPlaced;
    }

    lemma AfterRemove(rs: seq<Region>, l: seq<Span>, k: nat, before: seq<bool>)
      requires 1 <= k < |rs| == |l| && (forall j :: 0 <= j < |rs| ==> l[j] == SpanOf(rs[j])) && PlacedAll(rs)
      requires regions == rs[..k] + rs[k + 1..] && Shape() && Linked()
      requires Sorted(l, Limit()) && Cleared(l, k, before)
      ensures Valid() && Spans() == RemoveAt(l, k)
    {
      hide *;
      SpansAfterRemove(rs, l, k);
      ValidAfterRemove(l, k, before);
    }

    method ClearRegion(z: Region, ghost k: nat)
      requires Valid() && k < |regions| && z == regions[k]
      modifies indicator
      ensures Cleared(old(Spans()), k, old(indicator[..]))
    {
      RegionPages(k);
      var fpindex := (z.startAddress - baseAddress) / 4096;
      ghost var s := Spans()[k];
      assert s.End() <= Limit() <= totalPages && fpindex == s.page && z.numberPages == s.Pages();
      hide AllPlaced, Sorted, Taken, Linked, Limit;
      ClearPages(fpindex, z.numberPages);
    }

    /** Clear the pages of z and take it out of the list. */
    method Drop(z: Region, ghost k: nat)
      requires Valid() && 1 <= k < |regions| && z == regions[k]
      modifies `regions, regions`last, regions`next, indicator
      ensures Valid() && Spans() == RemoveAt(old(Spans()), k)
    {
      assert PlacedAll(regions);
      hide *;
      ghost var l, rs, before := Spans(), regions, indicator[..];
      Parts();
      ClearRegion(z, k);
      Unlink(z, k);
      AfterRemove(rs, l, k, before);
    }

    /** Release the region that starts at an address; nothing happens when there is none.  The first
        region has no predecessor to link past, so it must not be released. */
    method Release(start: Word)
      requires Valid() && regions != [] && start != regions[0].startAddress
      modifies `regions, regions`last, regions`next, indicator
      ensures Valid()
      ensures var l := old(Spans());
        var k := Find(l, 0, baseAddress, start);
        Spans() == if k == |l| then l else RemoveAt(l, k)
    {
      hide *;
      ghost var l, k: nat := Spans(), 0;
      Neighbour(0);
      var z := first;
      while z.next != null && z.startAddress != start
        invariant k < |regions| && z == regions[k]
        invariant Find(l, 0, baseAddress, start) == Find(l, k, baseAddress, start)
        modifies {}
        decreases |regions| - k
      {
        Neighbour(k);
        RegionPages(k);
        FindStep(l, k, baseAddress, start);
        z := z.next;
        k := k + 1;
      }
      Neighbour(k);
      RegionPages(k);
      FindStep(l, k, baseAddress, start);
      if z.startAddress == start {
        Drop(z, k);
      }
    }
  }
}
