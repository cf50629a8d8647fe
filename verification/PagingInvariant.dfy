/** What the paging module keeps over every sequence of kernel events. */
module PagingInvariant {
  import opened PagingModel

  ghost predicate Distinct(s: seq<PageId>) {
    forall i, j :: 0 <= i < j < |s| ==> s[i] != s[j]
  }

  /** The live VMAs whose `vm_private_data` is `record`. */
  function UsersOf(vmas: map<VmaId, Vma>, record: RecordId): set<VmaId> {
    set v | v in vmas && vmas[v].record == record
  }

  /** The list holds exactly the pages the module owns, each once, and the counters agree with it. */
  ghost predicate ListOk(s: State) {
    && s.allocCount == s.freeCount + |s.pageList|
    && Distinct(s.pageList)
    && forall page :: page in s.pageList <==> page in s.owned
  }

  /** Every record is either one a failed mmap abandoned or counts its live VMAs, of which there is one. */
  ghost predicate RefsOk(s: State) {
    && (forall r :: r in s.abandoned ==> r in s.records)
    && (forall v :: v in s.vmas ==> s.vmas[v].record in s.records && s.vmas[v].record !in s.abandoned)
    && (forall r :: r in s.records && r !in s.abandoned ==> s.records[r] == |UsersOf(s.vmas, r)| >= 1)
  }

  /** Without live VMAs, pages are left exactly when a failed mmap stranded them. */
  ghost predicate LeftoverOk(s: State) {
    && (s.stranded ==> s.pageList != [])
    && (s.vmas == map[] && !s.stranded ==> s.pageList == [])
  }

  ghost predicate Inv(s: State) {
    ListOk(s) && RefsOk(s) && LeftoverOk(s)
  }

  // ---- Faults and the pre-paging loop ----

  /** The VMA differs in its page-table entries only. */
  ghost predicate SameVma(x: Vma, y: Vma) {
    x.start == y.start && x.end == y.end && x.record == y.record
  }

  /** What faults on VMA `v` leave alone. */
  ghost predicate OnlyFaults(s: State, s': State, v: VmaId) {
    && s'.demandPaging == s.demandPaging && s'.freeCount == s.freeCount && s'.records == s.records
    && s'.abandoned == s.abandoned && s'.stranded == s.stranded
    && s'.vmas.Keys == s.vmas.Keys && v in s.vmas && SameVma(s.vmas[v], s'.vmas[v])
    && (forall w :: w in s.vmas && w != v ==> s'.vmas[w] == s.vmas[w])
    && |s.pageList| <= |s'.pageList| && s'.pageList[|s'.pageList| - |s.pageList|..] == s.pageList
  }

  lemma SameUsers(s: State, s': State, v: VmaId, record: RecordId)
    requires OnlyFaults(s, s', v)
    ensures UsersOf(s'.vmas, record) == UsersOf(s.vmas, record)
  {
  }

  lemma OnlyFaultsKeepsRefs(s: State, s': State, v: VmaId)
    requires OnlyFaults(s, s', v) && RefsOk(s)
    ensures RefsOk(s')
  {
    forall r | r in s'.records && r !in s'.abandoned
      ensures s'.records[r] == |UsersOf(s'.vmas, r)| >= 1
    {
      SameUsers(s, s', v, r);
    }
    forall w | w in s'.vmas
      ensures s'.vmas[w].record == s.vmas[w].record
    {
    }
  }

  /** Whatever the kernel answers, a page is on the list exactly while the module owns it. */
  lemma FaultListOk(s: State, v: VmaId, addr: nat, answer: Answer)
    requires ListOk(s) && v in s.vmas && PagesOf(answer) !! s.owned
    ensures ListOk(DoFault(s, v, addr, answer).0)
  {
    hide PageAlign;
    if answer.Mapped? {
      assert answer.page in PagesOf(answer);
      assert answer.page !in s.pageList;
    }
  }

  lemma FaultFrame(s: State, v: VmaId, addr: nat, answer: Answer)
    requires v in s.vmas
    ensures var s' := DoFault(s, v, addr, answer).0;
            OnlyFaults(s, s', v) && s'.owned <= s.owned + PagesOf(answer)
  {
    hide PageAlign;
  }

  lemma FaultInv(s: State, v: VmaId, addr: nat, answer: Answer)
    requires Inv(s) && v in s.vmas && PagesOf(answer) !! s.owned
    ensures var s' := DoFault(s, v, addr, answer).0; Inv(s') && OnlyFaults(s, s', v)
    ensures DoFault(s, v, addr, answer).0.owned <= s.owned + PagesOf(answer)
  {
    FaultListOk(s, v, addr, answer);
    FaultFrame(s, v, addr, answer);
    hide RefsOk, ListOk, DoFault;
    var s' := DoFault(s, v, addr, answer).0;
    OnlyFaultsKeepsRefs(s, s', v);
  }

  lemma FreshAfter(answers: seq<Answer>, owned: set<PageId>, fewer: set<PageId>)
    requires FreshPages(answers, owned) && fewer <= owned
    ensures FreshPages(answers, fewer)
  {
    if answers != [] {
      FreshAfter(answers[1..], owned + PagesOf(answers[0]), fewer + PagesOf(answers[0]));
    }
  }

  lemma {:induction false} PrepageInv(s: State, v: VmaId, addr: nat, answers: seq<Answer>)
    requires Inv(s) && v in s.vmas && |answers| >= PageCount(addr, s.vmas[v].end) && FreshPages(answers, s.owned)
    ensures var s' := Prepage(s, v, addr, answers).0; Inv(s') && OnlyFaults(s, s', v)
    decreases if addr < s.vmas[v].end then s.vmas[v].end - addr else 0
  {
    if addr < s.vmas[v].end {
      var (s1, r) := DoFault(s, v, addr, answers[0]);
      FaultInv(s, v, addr, answers[0]);
      if r == FaultNopage {
        FreshAfter(answers[1..], s.owned + PagesOf(answers[0]), s1.owned);
        PrepageInv(s1, v, addr + PAGE_SIZE, answers[1..]);
      }
    }
  }

  /** PAGE_ALIGN: the first page boundary that is not below the address. */
  lemma AlignedUp(addr: nat, boundary: nat)
    ensures Aligned(PageAlign(addr)) && addr <= PageAlign(addr)
    ensures Aligned(boundary) && addr <= boundary ==> PageAlign(addr) <= boundary
  {
  }

  /** What a fault leaves behind: with a page and a mapping for it, the page is the first of the list,
      counted, owned and mapped at the aligned address; otherwise nothing, and the error says why. */
  lemma FaultEffect(s: State, v: VmaId, addr: nat, answer: Answer)
    requires v in s.vmas
    ensures var (s', r) := DoFault(s, v, addr, answer);
            && (r == FaultOom <==> answer.NoPage?) && (r == FaultSigbus <==> answer.NoRemap?)
            && (r != FaultNopage ==> s' == s)
            && (r == FaultNopage ==>
                  && s'.pageList == [answer.page] + s.pageList && s'.owned == s.owned + {answer.page}
                  && s'.allocCount == s.allocCount + 1 && s'.vmas.Keys == s.vmas.Keys
                  && PageAlign(addr) in s'.vmas[v].mapped && s'.vmas[v].mapped[PageAlign(addr)] == answer.page
                  && s'.vmas[v].mapped - {PageAlign(addr)} == s.vmas[v].mapped - {PageAlign(addr)}
                  && s'.freeCount == s.freeCount && s'.records == s.records
                  && forall w :: w in s.vmas && w != v ==> s'.vmas[w] == s.vmas[w])
  {
    hide PageAlign;
  }

  // ---- mmap ----

  /** The state in which the pre-paging loop starts. */
  function WithMapping(s: State, v: VmaId, start: nat, end: nat, record: RecordId): State {
    s.(records := s.records[record := 1], vmas := s.vmas[v := Vma(start, end, record, map[])])
  }

  lemma NewMappingInv(s: State, v: VmaId, start: nat, end: nat, record: RecordId)
    requires Inv(s) && v !in s.vmas && record !in s.records
    ensures Inv(WithMapping(s, v, start, end, record))
  {
    var s1 := WithMapping(s, v, start, end, record);
    assert UsersOf(s1.vmas, record) == {v};
    forall r | r in s.records && r !in s.abandoned
      ensures UsersOf(s1.vmas, r) == UsersOf(s.vmas, r)
    {
    }
    assert v in s1.vmas;
  }

  /** `s` is where the loop of an mmap that started in `before` gave up. */
  ghost predicate LoopFailed(before: State, s: State, v: VmaId, record: RecordId) {
    && v !in before.vmas && record !in before.records
    && s.records == before.records[record := 1] && s.abandoned == before.abandoned && s.stranded == before.stranded
    && s.vmas - {v} == before.vmas
    && |before.pageList| <= |s.pageList| && s.pageList[|s.pageList| - |before.pageList|..] == before.pageList
  }

  lemma LoopFailedAfterFaults(before: State, s: State, v: VmaId, start: nat, end: nat, record: RecordId)
    requires v !in before.vmas && record !in before.records
    requires OnlyFaults(WithMapping(before, v, start, end, record), s, v)
    ensures LoopFailed(before, s, v, record)
  {
  }

  lemma FailMmapRefs(before: State, s: State, v: VmaId, record: RecordId)
    requires LoopFailed(before, s, v, record) && RefsOk(before)
    ensures RefsOk(FailMmap(s, before, v, record))
  {
  }

  lemma FailMmapLeftover(before: State, s: State, v: VmaId, record: RecordId)
    requires LoopFailed(before, s, v, record) && LeftoverOk(before)
    ensures LeftoverOk(FailMmap(s, before, v, record))
  {
  }

  lemma MmapInv(s: State, v: VmaId, start: nat, end: nat, record: RecordId, answers: seq<Answer>)
    requires Inv(s) && v !in s.vmas && record !in s.records
    requires |answers| >= PageCount(start, end) && FreshPages(answers, s.owned)
    ensures Inv(DoMmap(s, v, start, end, record, answers).0)
  {
    var s1 := WithMapping(s, v, start, end, record);
    NewMappingInv(s, v, start, end, record);
    if !s.demandPaging {
      PrepageInv(s1, v, start, answers);
      var (s2, r) := Prepage(s1, v, start, answers);
      if r != FaultNopage {
        LoopFailedAfterFaults(s, s2, v, start, end, record);
        FailMmapRefs(s, s2, v, record);
        FailMmapLeftover(s, s2, v, record);
      }
    }
  }

  /** `demand_paging` decides what the mmaps after it do: with it off they ask for every page at once,
      with it on for none; the parameter itself changes nothing else, and an mmap whose record cannot
      be allocated changes nothing at all. */
  lemma MmapFollowsParameter(s: State, on: bool, e: Event)
    requires Possible(s, SetDemand(on)) && Possible(s, e) && e.Mmap?
    ensures var s1 := Apply(s, SetDemand(on));
            && s1.demandPaging == on && s1.(demandPaging := s.demandPaging) == s && Possible(s1, e)
            && (!e.kmallocOk ==> Apply(s1, e) == s1)
            && (e.kmallocOk && on ==>
                  Apply(s1, e) == WithMapping(s1, e.v, e.start, e.end, e.record))
            && (e.kmallocOk && !on ==> AsksForAll(s1, e, Apply(s1, e)))
  {
    var s1 := s.(demandPaging := on);
    if e.kmallocOk && !on {
      PrepageStopsAt(WithMapping(s1, e.v, e.start, e.end, e.record), e.v, e.start, e.answers);
    }
  }

  /** The mmap has been through the pages of its range up to the first that could not be had. */
  ghost predicate AsksForAll(s: State, e: Event, s': State)
    requires Possible(s, e) && e.Mmap?
  {
    var k := FirstRefused(e.answers, PageCount(e.start, e.end));
    && |s'.pageList| == |s.pageList| + k && s'.allocCount == s.allocCount + k
    && (e.v in s'.vmas <==> k == PageCount(e.start, e.end))
  }

  /** How many of the first `n` answers bring a mapped page before one does not. */
  function FirstRefused(answers: seq<Answer>, n: nat): (k: nat)
    requires n <= |answers|
    ensures k <= n && (forall j :: 0 <= j < k ==> answers[j].Mapped?) && (k < n ==> !answers[k].Mapped?)
  {
    if n == 0 || !answers[0].Mapped? then 0 else 1 + FirstRefused(answers[1..], n - 1)
  }

  lemma {:induction false} PrepageStopsAt(s: State, v: VmaId, addr: nat, answers: seq<Answer>)
    requires v in s.vmas && |answers| >= PageCount(addr, s.vmas[v].end)
    ensures var (e, r) := Prepage(s, v, addr, answers);
            var k := FirstRefused(answers, PageCount(addr, s.vmas[v].end));
            && e.allocCount == s.allocCount + k && |e.pageList| == |s.pageList| + k && e.vmas.Keys == s.vmas.Keys
            && (r == FaultNopage <==> k == PageCount(addr, s.vmas[v].end))
    decreases if addr < s.vmas[v].end then s.vmas[v].end - addr else 0
  {
    var end := s.vmas[v].end;
    if addr < end {
      PageCountStep(addr, end);
      hide PageCount, PageAlign;
      if answers[0].Mapped? {
        PrepageStopsAt(DoFault(s, v, addr, answers[0]).0, v, addr + PAGE_SIZE, answers[1..]);
      }
    }
  }

  // ---- open and close ----

  /** Another VMA for a record, and one more reference to it. */
  lemma OpenInv(s: State, v: VmaId, low: Vma, w: VmaId, high: Vma)
    requires Inv(s) && v in s.vmas && w !in s.vmas && low.record == high.record == s.vmas[v].record
    ensures s.vmas[v].record in s.records && Inv(DoOpen(s, v, low, w, high))
    ensures |UsersOf(DoOpen(s, v, low, w, high).vmas, low.record)| >= 2
  {
    var s' := DoOpen(s, v, low, w, high);
    var record := s.vmas[v].record;
    assert UsersOf(s'.vmas, record) == UsersOf(s.vmas, record) + {w};
    forall r | r in s.records && r != record
      ensures UsersOf(s'.vmas, r) == UsersOf(s.vmas, r)
    {
    }
    assert v in s'.vmas;
  }

  lemma SplitInv(s: State, v: VmaId, mid: nat, upper: VmaId)
    requires Inv(s) && v in s.vmas && upper !in s.vmas
    ensures s.vmas[v].record in s.records && Inv(DoSplit(s, v, mid, upper))
  {
    OpenInv(s, v, LowPart(s.vmas[v], mid), upper, HighPart(s.vmas[v], mid));
  }

  /** A split divides the page-table entries between the two VMAs and loses none. */
  lemma SplitKeepsEntries(s: State, v: VmaId, mid: nat, upper: VmaId)
    requires v in s.vmas && s.vmas[v].record in s.records && upper !in s.vmas
    ensures var s' := DoSplit(s, v, mid, upper);
            && s'.vmas[v].mapped.Keys !! s'.vmas[upper].mapped.Keys
            && s'.vmas[v].mapped + s'.vmas[upper].mapped == s.vmas[v].mapped
            && (forall a :: a in s.vmas[v].mapped ==> (a in s'.vmas[v].mapped <==> a < mid))
            && s'.owned == s.owned && s'.vmas.Keys == s.vmas.Keys + {upper}
            && (forall w :: w in s.vmas && w != v ==> s'.vmas[w] == s.vmas[w])
            && s'.vmas[v].start == s.vmas[v].start && s'.vmas[v].end == mid == s'.vmas[upper].start
            && s'.vmas[upper].end == s.vmas[v].end
            && s'.vmas[v].record == s'.vmas[upper].record == s.vmas[v].record
  {
  }

  lemma SoleUser(vmas: map<VmaId, Vma>, v: VmaId, w: VmaId)
    requires v in vmas && w in vmas && vmas[w].record == vmas[v].record
    requires |UsersOf(vmas, vmas[v].record)| == 1
    ensures v == w
  {
    var users := UsersOf(vmas, vmas[v].record);
    assert v in users && w in users;
    assert |users - {v}| == 0;
    assert w !in users - {v};
  }

  lemma CloseUsers(s: State, v: VmaId, r: RecordId)
    requires v in s.vmas
    ensures var rest := s.vmas - {v};
            UsersOf(rest, r) == if s.vmas[v].record == r then UsersOf(s.vmas, r) - {v} else UsersOf(s.vmas, r)
    ensures s.vmas[v].record == r ==> |UsersOf(s.vmas - {v}, r)| == |UsersOf(s.vmas, r)| - 1
  {
  }

  /** The record goes with its last VMA, `ref_count` reaches 0 exactly then, and exactly then every
      listed page is freed, whatever other mappings are live. */
  lemma CloseFreesWithLastUser(s: State, v: VmaId)
    requires Inv(s) && v in s.vmas
    ensures s.vmas[v].record in s.records
    ensures s.vmas[v].record !in DoClose(s, v).records <==> UsersOf(s.vmas, s.vmas[v].record) == {v}
    ensures s.vmas[v].record !in DoClose(s, v).records <==> UsersOf(DoClose(s, v).vmas, s.vmas[v].record) == {}
    ensures var s' := DoClose(s, v);
            if UsersOf(s.vmas, s.vmas[v].record) == {v} then
              && s'.pageList == [] && s'.owned == {} && s'.freeCount == s.freeCount + |s.pageList|
              && s'.records.Keys == s.records.Keys - {s.vmas[v].record}
            else
              && s'.pageList == s.pageList && s'.owned == s.owned && s'.freeCount == s.freeCount
              && s'.records.Keys == s.records.Keys
              && s'.records[s.vmas[v].record] == s.records[s.vmas[v].record] - 1
    ensures var s' := DoClose(s, v);
            && s'.allocCount == s.allocCount && s'.vmas == s.vmas - {v} && s'.demandPaging == s.demandPaging
            && forall r :: r in s.records && r != s.vmas[v].record ==> r in s'.records && s'.records[r] == s.records[r]
  {
    CloseUsers(s, v, s.vmas[v].record);
    assert UsersOf(s.vmas, s.vmas[v].record) == {v} <==> UsersOf(s.vmas, s.vmas[v].record) - {v} == {};
    assert s.owned == Members(s.pageList);
  }

  lemma CloseInv(s: State, v: VmaId)
    requires Inv(s) && v in s.vmas
    ensures s.vmas[v].record in s.records && Inv(DoClose(s, v))
  {
    var s' := DoClose(s, v);
    var record := s.vmas[v].record;
    forall r | r in s'.records && r !in s'.abandoned
      ensures s'.records[r] == |UsersOf(s'.vmas, r)| >= 1
    {
      CloseUsers(s, v, r);
    }
    forall w | w in s'.vmas
      ensures s'.vmas[w].record in s'.records
    {
      if s'.vmas[w].record == record && s.records[record] == 1 {
        SoleUser(s.vmas, v, w);
      }
    }
    if s.records[record] != 1 {
      CloseUsers(s, v, record);
      assert UsersOf(s'.vmas, record) != {};
      var w :| w in UsersOf(s'.vmas, record);
      assert w in s'.vmas;
    }
  }

  /** Every entry of a moved VMA leads to its page at the new address. */
  lemma ShiftedRange(vma: Vma, to: nat)
    ensures Shifted(vma, to).start == to && Shifted(vma, to).record == vma.record
    ensures vma.start <= vma.end ==> Shifted(vma, to).end - to == vma.end - vma.start
  {
  }

  lemma ShiftedKeepsEntries(vma: Vma, to: nat, a: nat)
    requires a in vma.mapped && vma.start <= a < vma.end
    ensures var b := a - vma.start + to; b in Shifted(vma, to).mapped && Shifted(vma, to).mapped[b] == vma.mapped[a]
  {
  }

  lemma RemapMovesVma(s: State, v: VmaId, to: nat, w: VmaId)
    requires Inv(s) && v in s.vmas && w !in s.vmas
    ensures s.vmas[v].record in s.records
    ensures DoRemap(s, v, to, w) == s.(vmas := s.vmas[w := Shifted(s.vmas[v], to)] - {v})
  {
    hide Shifted;
    var s' := DoRemap(s, v, to, w);
    assert s'.records == s.records;
    assert s'.vmas == s.vmas[w := Shifted(s.vmas[v], to)] - {v};
  }

  /** Moving a mapping keeps the references and frees no page: the kernel opens the copy before it
      closes the original. Every page of the range is mapped at its new address. */
  lemma RemapKeepsPages(s: State, v: VmaId, to: nat, w: VmaId, a: nat)
    requires Inv(s) && v in s.vmas && w !in s.vmas
    ensures s.vmas[v].record in s.records
    ensures var s' := DoRemap(s, v, to, w);
            && s'.records == s.records && s'.pageList == s.pageList && s'.owned == s.owned
            && s'.freeCount == s.freeCount && s'.vmas.Keys == s.vmas.Keys + {w} - {v}
            && (forall x :: x in s.vmas && x != v ==> s'.vmas[x] == s.vmas[x])
            && s'.vmas[w].start == to && s'.vmas[w].record == s.vmas[v].record
            && (s.vmas[v].start <= s.vmas[v].end ==> s'.vmas[w].end - to == s.vmas[v].end - s.vmas[v].start)
    ensures a in s.vmas[v].mapped && s.vmas[v].start <= a < s.vmas[v].end ==>
              var b, moved := a - s.vmas[v].start + to, DoRemap(s, v, to, w).vmas[w].mapped;
              b in moved && moved[b] == s.vmas[v].mapped[a]
  {
    hide DoRemap, Shifted, Inv;
    RemapMovesVma(s, v, to, w);
    ShiftedRange(s.vmas[v], to);
    if a in s.vmas[v].mapped && s.vmas[v].start <= a < s.vmas[v].end {
      ShiftedKeepsEntries(s.vmas[v], to, a);
    }
  }

  lemma RemapInv(s: State, v: VmaId, to: nat, w: VmaId)
    requires Inv(s) && v in s.vmas && w !in s.vmas
    ensures s.vmas[v].record in s.records && Inv(DoRemap(s, v, to, w))
  {
    var low, high := s.vmas[v].(mapped := map[]), Shifted(s.vmas[v], to);
    OpenInv(s, v, low, w, high);
    var copied := DoOpen(s, v, low, w, high);
    assert v in copied.vmas;
    hide Inv, DoOpen, DoClose;
    CloseInv(copied, v);
  }

  // ---- Every run ----

  lemma ApplyInv(s: State, e: Event)
    requires Inv(s) && Possible(s, e)
    ensures Inv(Apply(s, e))
  {
    match e
    case Mmap(v, start, end, record, kmallocOk, answers) =>
      if kmallocOk {
        MmapInv(s, v, start, end, record, answers);
      }
    case Fault(v, addr, answer) => FaultInv(s, v, addr, answer);
    case Split(v, mid, upper) => SplitInv(s, v, mid, upper);
    case Remap(v, to, w) => RemapInv(s, v, to, w);
    case Close(v) => CloseInv(s, v);
    case SetDemand(_) =>
  }

  /** The kernel can deliver the events one after the other. */
  predicate Legal(s: State, events: seq<Event>)
    decreases |events|
  {
    events == [] || (Possible(s, events[0]) && Legal(Apply(s, events[0]), events[1..]))
  }

  function Execute(s: State, events: seq<Event>): State
    requires Legal(s, events)
    decreases |events|
  {
    if events == [] then s else Execute(Apply(s, events[0]), events[1..])
  }

  /** The state before event number `i`, or after all of them. */
  function At(s: State, events: seq<Event>, i: nat): (at: State)
    requires Legal(s, events) && i <= |events|
    ensures i < |events| ==> Possible(at, events[i])
    ensures i == |events| ==> at == Execute(s, events)
    decreases i
  {
    if i == 0 then s else At(Apply(s, events[0]), events[1..], i - 1)
  }

  lemma AtStart(s: State, events: seq<Event>)
    requires Init(s) && Legal(s, events)
    ensures var at := At(s, events, 0); at.abandoned == {} && !at.stranded && Backed(at) && Unshared(at)
  {
  }

  lemma {:induction false} AtNext(s: State, events: seq<Event>, i: nat)
    requires Legal(s, events) && i < |events|
    ensures At(s, events, i + 1) == Apply(At(s, events, i), events[i])
    decreases i
  {
    hide Apply, Possible;
    if i > 0 {
      AtNext(Apply(s, events[0]), events[1..], i - 1);
    }
  }

  /** The module as `kmod_paging_init` leaves it, under either setting of its parameter. */
  ghost predicate Init(s: State) {
    s == LOADED.(demandPaging := s.demandPaging)
  }

  lemma InitInv(s: State)
    requires Init(s)
    ensures Inv(s)
  {
  }

  lemma {:induction false} InvAt(s: State, events: seq<Event>, i: nat)
    requires Inv(s) && Legal(s, events) && i <= |events|
    ensures Inv(At(s, events, i))
  {
    hide Inv, Apply, Possible;
    if i > 0 {
      InvAt(s, events, i - 1);
      AtNext(s, events, i - 1);
      ApplyInv(At(s, events, i - 1), events[i - 1]);
    }
  }

  /** After every sequence of events: pages allocated and not freed are the listed ones, each listed
      once; every mapping's `ref_count` is the number of live VMAs that share its record. */
  lemma EveryRunKeepsCounts(s: State, events: seq<Event>)
    requires Init(s) && Legal(s, events)
    ensures var e := Execute(s, events);
            && e.allocCount - e.freeCount == |e.pageList| == |e.owned|
            && Distinct(e.pageList) && (forall page :: page in e.pageList <==> page in e.owned)
            && (forall v :: v in e.vmas ==>
                  e.vmas[v].record in e.records && e.records[e.vmas[v].record] == |UsersOf(e.vmas, e.vmas[v].record)|)
  {
    InvAt(s, events, |events|);
    var e := Execute(s, events);
    DistinctSize(e.pageList, e.owned);
  }

  lemma {:induction false} DistinctSize(pages: seq<PageId>, owned: set<PageId>)
    requires Distinct(pages) && forall page :: page in pages <==> page in owned
    ensures |pages| == |owned|
  {
    if pages == [] {
      assert owned == {};
    } else {
      var rest := owned - {pages[0]};
      assert forall page :: page in pages[1..] <==> page in rest;
      DistinctSize(pages[1..], rest);
    }
  }

  // ---- The balance at module exit ----

  /** A pre-paging mmap that fails after its first page. */
  ghost predicate StrandsPages(s: State, e: Event)
    requires Possible(s, e)
  {
    && e.Mmap? && e.kmallocOk && !s.demandPaging && PageCount(e.start, e.end) > 0
    && e.answers[0].Mapped? && exists k :: 0 <= k < PageCount(e.start, e.end) && !e.answers[k].Mapped?
  }

  /** The close of the last VMA of a record. */
  ghost predicate FreesRecord(s: State, e: Event)
    requires Possible(s, e)
  {
    e.Close? && UsersOf(s.vmas, s.vmas[e.v].record) == {e.v}
  }

  lemma FirstFailure(answers: seq<Answer>, n: nat) returns (k: nat)
    requires n <= |answers| && exists j :: 0 <= j < n && !answers[j].Mapped?
    ensures k < n && !answers[k].Mapped? && forall j :: 0 <= j < k ==> answers[j].Mapped?
  {
    if n > 0 && exists j :: 0 <= j < n - 1 && !answers[j].Mapped? {
      k := FirstFailure(answers, n - 1);
    } else {
      k := n - 1;
    }
  }

  lemma MmapStranded(s: State, e: Event)
    requires Inv(s) && Possible(s, e) && e.Mmap?
    ensures Apply(s, e).stranded <==> s.stranded || StrandsPages(s, e)
  {
    if e.kmallocOk && !s.demandPaging {
      var n := PageCount(e.start, e.end);
      if exists k :: 0 <= k < n && !e.answers[k].Mapped? {
        var k := FirstFailure(e.answers, n);
        FailedPrepagingStrands(s, e.v, e.start, e.end, e.record, e.answers, k);
      } else {
        var s1 := WithMapping(s, e.v, e.start, e.end, e.record);
        NewMappingInv(s, e.v, e.start, e.end, e.record);
        PrepageInv(s1, e.v, e.start, e.answers);
        PrepageSucceeds(s1, e.v, e.start, e.answers);
      }
    }
  }

  lemma NextStranded(s: State, e: Event)
    requires Inv(s) && Possible(s, e)
    ensures Apply(s, e).stranded <==> (s.stranded || StrandsPages(s, e)) && !FreesRecord(s, e)
  {
    match e
    case Mmap(_, _, _, _, _, _) => MmapStranded(s, e);
    case Fault(v, addr, answer) =>
    case Split(v, mid, upper) =>
    case Remap(v, to, w) => RemapMovesVma(s, v, to, w);
    case Close(v) => CloseFreesWithLastUser(s, v);
    case SetDemand(_) =>
  }

  /** A failed pre-paging before event `n` whose pages no close has freed since. */
  ghost predicate PagesLeft(s: State, events: seq<Event>, n: nat)
    requires Legal(s, events) && n <= |events|
  {
    exists i: nat :: i < n && StrandsPages(At(s, events, i), events[i]) && NoneFreed(s, events, i, n)
  }

  ghost predicate NoneFreed(s: State, events: seq<Event>, i: nat, n: nat)
    requires Legal(s, events) && n <= |events|
  {
    forall j: nat :: i < j < n ==> !FreesRecord(At(s, events, j), events[j])
  }

  lemma PagesLeftNext(s: State, events: seq<Event>, n: nat)
    requires Legal(s, events) && n < |events|
    ensures var now := At(s, events, n);
            PagesLeft(s, events, n + 1) <==>
              (PagesLeft(s, events, n) || StrandsPages(now, events[n])) && !FreesRecord(now, events[n])
  {
    hide At, StrandsPages, FreesRecord;
    var now := At(s, events, n);
    assert StrandsPages(now, events[n]) ==> !FreesRecord(now, events[n]) by {
      StrandsOrFrees(now, events[n]);
    }
    if i: nat :| i < n && StrandsPages(At(s, events, i), events[i]) && NoneFreed(s, events, i, n) {
      assert NoneFreed(s, events, i, n + 1) <==> !FreesRecord(now, events[n]);
    }
    if i: nat :| i < n + 1 && StrandsPages(At(s, events, i), events[i]) && NoneFreed(s, events, i, n + 1) {
      assert i < n ==> NoneFreed(s, events, i, n);
    }
    assert NoneFreed(s, events, n, n + 1);
  }

  lemma StrandsOrFrees(s: State, e: Event)
    requires Possible(s, e)
    ensures !StrandsPages(s, e) || !FreesRecord(s, e)
  {
  }

  lemma StrandedNext(s: State, events: seq<Event>, n: nat)
    requires Init(s) && Legal(s, events) && n < |events|
    ensures var now := At(s, events, n);
            At(s, events, n + 1).stranded <==>
              (now.stranded || StrandsPages(now, events[n])) && !FreesRecord(now, events[n])
  {
    InitInv(s);
    hide At, Apply, Legal, Possible, Inv, Init, StrandsPages, FreesRecord;
    InvAt(s, events, n);
    AtNext(s, events, n);
    NextStranded(At(s, events, n), events[n]);
  }

  lemma {:induction false} StrandedAt(s: State, events: seq<Event>, n: nat)
    requires Init(s) && Legal(s, events) && n <= |events|
    ensures At(s, events, n).stranded <==> PagesLeft(s, events, n)
  {
    hide At, Apply, Legal, Possible, Inv, Init, StrandsPages, FreesRecord;
    if n == 0 {
      AtStart(s, events);
    } else {
      hide PagesLeft;
      StrandedAt(s, events, n - 1);
      StrandedNext(s, events, n - 1);
      PagesLeftNext(s, events, n - 1);
    }
  }

  /** The balance printed at module exit: with no mapping left, allocations and frees agree exactly
      when every pre-paging mmap that failed after its first page was followed by the close of the
      last VMA of some record. */
  lemma ExitBalance(s: State, events: seq<Event>)
    requires Init(s) && Legal(s, events)
    ensures var e := Execute(s, events);
            var balanced := forall i: nat :: i < |events| && StrandsPages(At(s, events, i), events[i]) ==>
                              exists j: nat :: i < j < |events| && FreesRecord(At(s, events, j), events[j]);
            e.vmas == map[] ==> (e.allocCount == e.freeCount <==> balanced) && (e.pageList == [] <==> balanced)
  {
    InvAt(s, events, |events|);
    StrandedAt(s, events, |events|);
    hide At, StrandsPages, FreesRecord;
  }

  // ---- The records left at module exit ----

  ghost predicate FailsPrepaging(s: State, e: Event)
    requires Possible(s, e)
  {
    && e.Mmap? && e.kmallocOk && !s.demandPaging
    && exists k :: 0 <= k < PageCount(e.start, e.end) && !e.answers[k].Mapped?
  }

  lemma MmapAbandons(s: State, e: Event)
    requires Inv(s) && Possible(s, e) && e.Mmap?
    ensures Apply(s, e).abandoned == s.abandoned + if FailsPrepaging(s, e) then {e.record} else {}
    ensures e.record !in s.abandoned
  {
    if e.kmallocOk && !s.demandPaging {
      if FailsPrepaging(s, e) {
        var k := FirstFailure(e.answers, PageCount(e.start, e.end));
        FailedPrepagingStrands(s, e.v, e.start, e.end, e.record, e.answers, k);
      } else {
        var s1 := WithMapping(s, e.v, e.start, e.end, e.record);
        NewMappingInv(s, e.v, e.start, e.end, e.record);
        PrepageInv(s1, e.v, e.start, e.answers);
        PrepageSucceeds(s1, e.v, e.start, e.answers);
      }
    }
  }

  lemma NextAbandoned(s: State, e: Event)
    requires Inv(s) && Possible(s, e)
    ensures |Apply(s, e).abandoned| == |s.abandoned| + if FailsPrepaging(s, e) then 1 else 0
  {
    match e
    case Mmap(_, _, _, _, _, _) => MmapAbandons(s, e);
    case Fault(v, addr, answer) =>
    case Split(v, mid, upper) =>
    case Remap(v, to, w) => RemapMovesVma(s, v, to, w);
    case Close(v) =>
    case SetDemand(_) =>
  }

  /** How many of the first `n` events are pre-paging mmaps that fail. */
  ghost function FailedMmaps(s: State, events: seq<Event>, n: nat): (count: nat)
    requires Legal(s, events) && n <= |events|
    ensures count == 0 <==> forall i: nat :: i < n ==> !FailsPrepaging(At(s, events, i), events[i])
  {
    if n == 0 then 0
    else FailedMmaps(s, events, n - 1) + if FailsPrepaging(At(s, events, n - 1), events[n - 1]) then 1 else 0
  }

  lemma {:induction false} AbandonedAt(s: State, events: seq<Event>, n: nat)
    requires Init(s) && Legal(s, events) && n <= |events|
    ensures |At(s, events, n).abandoned| == FailedMmaps(s, events, n)
  {
    hide At, Apply, Legal, Possible, Inv, Init, FailsPrepaging;
    if n == 0 {
      AtStart(s, events);
    } else {
      AbandonedAt(s, events, n - 1);
      AbandonedNext(s, events, n - 1);
    }
  }

  lemma AbandonedNext(s: State, events: seq<Event>, n: nat)
    requires Init(s) && Legal(s, events) && n < |events|
    ensures |At(s, events, n + 1).abandoned|
         == |At(s, events, n).abandoned| + if FailsPrepaging(At(s, events, n), events[n]) then 1 else 0
  {
    InitInv(s);
    hide At, Apply, Legal, Possible, Inv, Init, FailsPrepaging;
    InvAt(s, events, n);
    AtNext(s, events, n);
    NextAbandoned(At(s, events, n), events[n]);
  }

  lemma OnlyAbandonedLeft(s: State)
    requires Inv(s) && s.vmas == map[]
    ensures s.records.Keys == s.abandoned
  {
    forall r | r in s.records && r !in s.abandoned
      ensures UsersOf(s.vmas, r) != {}
    {
      assert |UsersOf(s.vmas, r)| >= 1;
    }
  }

  /** With no mapping left, one record is still allocated for every pre-paging mmap of the run that
      failed, at whichever page; so all are freed exactly when none did. */
  lemma RecordsLeft(s: State, events: seq<Event>)
    requires Init(s) && Legal(s, events)
    ensures var e := Execute(s, events);
            e.vmas == map[] ==>
              && |e.records.Keys| == FailedMmaps(s, events, |events|)
              && (e.records == map[] <==>
                    forall i: nat :: i < |events| ==> !FailsPrepaging(At(s, events, i), events[i]))
  {
    InvAt(s, events, |events|);
    AbandonedAt(s, events, |events|);
    hide At, FailsPrepaging;
    var e := Execute(s, events);
    if e.vmas == map[] {
      OnlyAbandonedLeft(e);
      assert e.records == map[] <==> e.records.Keys == {};
    }
  }

  // ---- Are mapped pages still allocated? ----

  /** Every page-table entry of a live VMA leads to a page the module still owns. */
  ghost predicate Backed(s: State) {
    forall v, a :: v in s.vmas && a in s.vmas[v].mapped ==> s.vmas[v].mapped[a] in s.owned
  }

  /** No page is mapped at two places. */
  ghost predicate Unshared(s: State) {
    forall v, a, w, b |
      && v in s.vmas && w in s.vmas && a in s.vmas[v].mapped && b in s.vmas[w].mapped
      && s.vmas[v].mapped[a] == s.vmas[w].mapped[b] ::
      v == w && a == b
  }

  ghost predicate Sound(s: State) {
    Backed(s) && Unshared(s)
  }

  lemma FaultSound(s: State, v: VmaId, addr: nat, answer: Answer)
    requires Sound(s) && v in s.vmas && PagesOf(answer) !! s.owned
    ensures Sound(DoFault(s, v, addr, answer).0)
  {
    if answer.Mapped? {
      assert answer.page !in s.owned;
      var s' := DoFault(s, v, addr, answer).0;
      forall w, b | w in s'.vmas && b in s'.vmas[w].mapped
        ensures || (w == v && b == PageAlign(addr))
                || (b in s.vmas[w].mapped && s'.vmas[w].mapped[b] == s.vmas[w].mapped[b])
      {
      }
    }
  }

  lemma {:induction false} PrepageSound(s: State, v: VmaId, addr: nat, answers: seq<Answer>)
    requires Sound(s) && v in s.vmas && |answers| >= PageCount(addr, s.vmas[v].end) && FreshPages(answers, s.owned)
    ensures Sound(Prepage(s, v, addr, answers).0)
    decreases if addr < s.vmas[v].end then s.vmas[v].end - addr else 0
  {
    if addr < s.vmas[v].end {
      var (s1, r) := DoFault(s, v, addr, answers[0]);
      FaultSound(s, v, addr, answers[0]);
      if r == FaultNopage {
        FreshAfter(answers[1..], s.owned + PagesOf(answers[0]), s1.owned);
        PrepageSound(s1, v, addr + PAGE_SIZE, answers[1..]);
      }
    }
  }

  lemma FewerVmasSound(s: State, vmas: map<VmaId, Vma>)
    requires Sound(s) && forall v :: v in vmas ==> v in s.vmas && vmas[v] == s.vmas[v]
    ensures Sound(s.(vmas := vmas))
  {
  }

  lemma MmapSound(s: State, v: VmaId, start: nat, end: nat, record: RecordId, answers: seq<Answer>)
    requires Sound(s) && v !in s.vmas
    requires |answers| >= PageCount(start, end) && FreshPages(answers, s.owned)
    ensures Sound(DoMmap(s, v, start, end, record, answers).0)
  {
    var s1 := WithMapping(s, v, start, end, record);
    assert Sound(s1);
    if !s.demandPaging {
      PrepageSound(s1, v, start, answers);
      var (s2, r) := Prepage(s1, v, start, answers);
      FewerVmasSound(s2, s2.vmas - {v});
    }
  }

  /** Where an entry of the new state was in the old one: its VMA and its address. */
  type Origin = (VmaId, nat) -> (VmaId, nat)

  ghost predicate Entry(s: State, x: (VmaId, nat)) {
    x.0 in s.vmas && x.1 in s.vmas[x.0].mapped
  }

  /** Entries have moved, none has been copied. */
  ghost predicate Moved(s: State, s': State, origin: Origin) {
    && (forall w, b :: Entry(s', (w, b)) ==>
          Entry(s, origin(w, b)) && s'.vmas[w].mapped[b] == s.vmas[origin(w, b).0].mapped[origin(w, b).1])
    && forall w, b, w', b' :: Entry(s', (w, b)) && Entry(s', (w', b')) && origin(w, b) == origin(w', b') ==>
         w == w' && b == b'
  }

  lemma MovedEntriesSound(s: State, s': State, origin: Origin)
    requires Sound(s) && s'.owned == s.owned && Moved(s, s', origin)
    ensures Sound(s')
  {
    forall v, a | v in s'.vmas && a in s'.vmas[v].mapped
      ensures Entry(s', (v, a))
    {
    }
  }

  lemma SplitSound(s: State, v: VmaId, mid: nat, upper: VmaId)
    requires Sound(s) && v in s.vmas && s.vmas[v].record in s.records && upper !in s.vmas
    ensures Sound(DoSplit(s, v, mid, upper))
  {
    hide DoSplit, Sound;
    var s' := DoSplit(s, v, mid, upper);
    SplitKeepsEntries(s, v, mid, upper);
    var origin: Origin := (w, b) => (if w == upper then v else w, b);
    assert Moved(s, s', origin);
    MovedEntriesSound(s, s', origin);
  }

  function RemapOrigin(vma: Vma, v: VmaId, to: nat, w: VmaId): Origin {
    (x, b) => if x == w then (v, OldAddress(vma, to, b)) else (x, b)
  }

  lemma RemapEntry(s: State, s': State, v: VmaId, to: nat, w: VmaId, x: VmaId, b: nat)
    requires v in s.vmas && w !in s.vmas && s'.vmas == s.vmas[w := Shifted(s.vmas[v], to)] - {v}
    requires Entry(s', (x, b))
    ensures var o := RemapOrigin(s.vmas[v], v, to, w)(x, b);
            Entry(s, o) && s'.vmas[x].mapped[b] == s.vmas[o.0].mapped[o.1] && (x == w ==> b >= to)
  {
  }

  lemma RemapMoves(s: State, s': State, v: VmaId, to: nat, w: VmaId)
    requires v in s.vmas && w !in s.vmas && s'.vmas == s.vmas[w := Shifted(s.vmas[v], to)] - {v}
    ensures Moved(s, s', RemapOrigin(s.vmas[v], v, to, w))
  {
    hide Shifted;
    var origin := RemapOrigin(s.vmas[v], v, to, w);
    forall x: VmaId, b: nat | Entry(s', (x, b))
      ensures var o := origin(x, b);
              Entry(s, o) && s'.vmas[x].mapped[b] == s.vmas[o.0].mapped[o.1] && (x == w ==> b >= to) && x != v
    {
      RemapEntry(s, s', v, to, w, x, b);
    }
    hide Entry;
  }

  lemma RemapSound(s: State, v: VmaId, to: nat, w: VmaId)
    requires Inv(s) && Sound(s) && v in s.vmas && w !in s.vmas
    ensures s.vmas[v].record in s.records && Sound(DoRemap(s, v, to, w))
  {
    RemapMovesVma(s, v, to, w);
    hide DoRemap, Inv, Sound, Shifted, Moved;
    var s' := DoRemap(s, v, to, w);
    RemapMoves(s, s', v, to, w);
    MovedEntriesSound(s, s', RemapOrigin(s.vmas[v], v, to, w));
  }

  lemma OthersLosePages(s: State, v: VmaId, w: VmaId)
    requires Inv(s) && v in s.vmas && w in s.vmas && w != v && s.vmas[v].record in s.records
    requires |UsersOf(s.vmas, s.vmas[v].record)| == 1 && Backed(DoClose(s, v))
    ensures s.vmas[w].mapped == map[]
  {
    var s' := DoClose(s, v);
    assert s'.owned == {};
    assert forall a :: a !in s'.vmas[w].mapped;
  }

  /** No page in use is lost with VMA `v`: its record has another VMA, or no other VMA has a page. */
  ghost predicate Spares(s: State, v: VmaId)
    requires v in s.vmas
  {
    || |UsersOf(s.vmas, s.vmas[v].record)| > 1
    || forall w :: w in s.vmas && w != v ==> s.vmas[w].mapped == map[]
  }

  /** The list is shared by all mappings, so the close that frees a record frees the pages of every
      other mapping too. The pages in use survive a close exactly when the record has another VMA
      or no other VMA has any page. */
  lemma CloseKeepsPages(s: State, v: VmaId)
    requires Inv(s) && Sound(s) && v in s.vmas
    ensures s.vmas[v].record in s.records
    ensures Backed(DoClose(s, v)) <==> Spares(s, v)
    ensures Unshared(DoClose(s, v))
  {
    FewerVmasSound(s, s.vmas - {v});
    if |UsersOf(s.vmas, s.vmas[v].record)| == 1 && Backed(DoClose(s, v)) {
      forall w | w in s.vmas && w != v
        ensures s.vmas[w].mapped == map[]
      {
        OthersLosePages(s, v, w);
      }
    }
  }

  /** Two mappings are enough to lose a page in use: closing the first frees the second one's page. */
  lemma TwoMappingsCanDangle() returns (s: State, events: seq<Event>)
    ensures Init(s) && Legal(s, events) && !Backed(Execute(s, events))
  {
    s := LOADED;
    var map0 := Mmap(0, 0, PAGE_SIZE, 0, true, [NoPage]);
    var map1 := Mmap(1, 0, PAGE_SIZE, 1, true, [NoPage]);
    var touch := Fault(1, 0, Mapped(7));
    events := [map0, map1, touch, Close(0)];
    var s1 := Apply(s, map0);
    assert FreshPages([NoPage], {}) by {
      assert [NoPage][1..] == [];
    }
    var s2 := Apply(s1, map1);
    var s3 := Apply(s2, touch);
    var s4 := Apply(s3, Close(0));
    assert PageAlign(0) in s4.vmas[1].mapped && s4.vmas[1].mapped[PageAlign(0)] == 7;
    assert events[1..] == [map1, touch, Close(0)];
    assert events[1..][1..] == [touch, Close(0)];
    assert events[1..][1..][1..] == [Close(0)];
    assert Legal(s3, [Close(0)]) && Execute(s3, [Close(0)]) == s4;
    assert Legal(s2, [touch, Close(0)]) && Execute(s2, [touch, Close(0)]) == s4;
    assert Legal(s1, [map1, touch, Close(0)]) && Execute(s1, [map1, touch, Close(0)]) == s4;
  }

  ghost predicate SharesOneRecord(s: State) {
    forall v, w :: v in s.vmas && w in s.vmas ==> s.vmas[v].record == s.vmas[w].record
  }

  /** Only a close can take pages away from a VMA in use. */
  lemma ApplyBacked(s: State, e: Event)
    requires Inv(s) && Sound(s) && Possible(s, e)
    ensures Unshared(Apply(s, e))
    ensures Backed(Apply(s, e)) <==> (e.Close? ==> Spares(s, e.v))
  {
    match e
    case Mmap(v, start, end, record, kmallocOk, answers) =>
      if kmallocOk {
        MmapSound(s, v, start, end, record, answers);
      }
    case Fault(v, addr, answer) => FaultSound(s, v, addr, answer);
    case Split(v, mid, upper) => SplitSound(s, v, mid, upper);
    case Remap(v, to, w) => RemapSound(s, v, to, w);
    case Close(v) => CloseKeepsPages(s, v);
    case SetDemand(_) =>
  }

  /** Every close before event `n` spares the pages in use. */
  ghost predicate ClosesSpare(s: State, events: seq<Event>, n: nat)
    requires Legal(s, events) && n <= |events|
  {
    forall i: nat :: i < n && events[i].Close? ==> Spares(At(s, events, i), events[i].v)
  }

  ghost predicate BackedUpTo(s: State, events: seq<Event>, n: nat)
    requires Legal(s, events) && n <= |events|
  {
    forall i: nat :: i <= n ==> Backed(At(s, events, i))
  }

  lemma OneEventMore(s: State, events: seq<Event>, n: nat)
    requires Legal(s, events) && n < |events|
    ensures ClosesSpare(s, events, n + 1) <==>
              ClosesSpare(s, events, n) && (events[n].Close? ==> Spares(At(s, events, n), events[n].v))
    ensures BackedUpTo(s, events, n + 1) <==> BackedUpTo(s, events, n) && Backed(At(s, events, n + 1))
  {
    hide At, Spares, Backed, Legal, Possible;
  }

  lemma {:induction false} BackedAt(s: State, events: seq<Event>, n: nat)
    requires Init(s) && Legal(s, events) && n <= |events|
    ensures BackedUpTo(s, events, n) <==> ClosesSpare(s, events, n)
    ensures ClosesSpare(s, events, n) ==> Sound(At(s, events, n))
  {
    hide At, Apply, Spares, Backed, Unshared, Legal, Possible, Inv, Init;
    if n == 0 {
      AtStart(s, events);
    } else {
      hide ClosesSpare, BackedUpTo;
      BackedAt(s, events, n - 1);
      if Sound(At(s, events, n - 1)) {
        BackedNext(s, events, n - 1);
      }
      OneEventMore(s, events, n - 1);
    }
  }

  lemma BackedNext(s: State, events: seq<Event>, n: nat)
    requires Init(s) && Legal(s, events) && n < |events| && Sound(At(s, events, n))
    ensures Unshared(At(s, events, n + 1))
    ensures Backed(At(s, events, n + 1)) <==> (events[n].Close? ==> Spares(At(s, events, n), events[n].v))
  {
    InitInv(s);
    hide At, Apply, Legal, Possible, Inv, Init, Spares, Backed, Unshared;
    InvAt(s, events, n);
    AtNext(s, events, n);
    ApplyBacked(At(s, events, n), events[n]);
  }

  /** A run keeps every page-table entry of every live VMA on a page that is still allocated, at all
      times, exactly when each of its closes spares the pages in use; and then no page is mapped twice. */
  lemma PagesInUseStayExactly(s: State, events: seq<Event>)
    requires Init(s) && Legal(s, events)
    ensures BackedUpTo(s, events, |events|) <==> ClosesSpare(s, events, |events|)
    ensures BackedUpTo(s, events, |events|) ==> Unshared(Execute(s, events))
  {
    BackedAt(s, events, |events|);
  }

  lemma SharingSpares(s: State, v: VmaId)
    requires Inv(s) && v in s.vmas && SharesOneRecord(s)
    ensures Spares(s, v)
  {
    if |UsersOf(s.vmas, s.vmas[v].record)| <= 1 {
      forall w | w in s.vmas
        ensures w == v
      {
        SoleUser(s.vmas, v, w);
      }
    }
  }

  /** While one mapping is live at a time (splitting or moving it does not make two), every mapped page
      is still allocated and is mapped nowhere else, at all times. */
  lemma OneMappingKeepsPages(s: State, events: seq<Event>)
    requires Init(s) && Legal(s, events)
    requires forall i: nat :: i < |events| ==> SharesOneRecord(At(s, events, i))
    ensures BackedUpTo(s, events, |events|) && Unshared(Execute(s, events))
  {
    forall i: nat | i < |events| && events[i].Close?
      ensures Spares(At(s, events, i), events[i].v)
    {
      InvAt(s, events, i);
      SharingSpares(At(s, events, i), events[i].v);
    }
    hide At, Spares, Backed, Unshared;
    PagesInUseStayExactly(s, events);
  }

  // ---- Pre-paging against demand paging ----

  predicate AllMapped(answers: seq<Answer>) {
    forall k :: 0 <= k < |answers| ==> answers[k].Mapped?
  }

  /** One fault for each page of [addr, end), in ascending order. */
  function FaultEvents(v: VmaId, addr: nat, end: nat, answers: seq<Answer>): seq<Event>
    requires |answers| >= PageCount(addr, end)
    decreases if addr < end then end - addr else 0
  {
    if addr >= end then []
    else [Fault(v, addr, answers[0])] + FaultEvents(v, addr + PAGE_SIZE, end, answers[1..])
  }

  /** The pre-paging loop does what the faults would do, whatever the module parameter says then. */
  lemma {:induction false} PrepageIsFaults(s: State, v: VmaId, addr: nat, answers: seq<Answer>, demand: bool)
    requires v in s.vmas && |answers| >= PageCount(addr, s.vmas[v].end)
    requires AllMapped(answers) && FreshPages(answers, s.owned)
    ensures var s' := s.(demandPaging := demand);
            && Legal(s', FaultEvents(v, addr, s.vmas[v].end, answers))
            && Execute(s', FaultEvents(v, addr, s.vmas[v].end, answers))
               == Prepage(s, v, addr, answers).0.(demandPaging := demand)
    ensures Prepage(s, v, addr, answers).1 == FaultNopage
    decreases if addr < s.vmas[v].end then s.vmas[v].end - addr else 0
  {
    var end := s.vmas[v].end;
    if addr < end {
      var s1 := DoFault(s, v, addr, answers[0]).0;
      var rest := FaultEvents(v, addr + PAGE_SIZE, end, answers[1..]);
      PrepageIsFaults(s1, v, addr + PAGE_SIZE, answers[1..], demand);
      var events := FaultEvents(v, addr, end, answers);
      assert events[1..] == rest;
      assert Apply(s.(demandPaging := demand), events[0]) == s1.(demandPaging := demand);
    }
  }

  /** Each answer of the allocator is counted and listed. */
  lemma {:induction false} PrepageCounts(s: State, v: VmaId, addr: nat, answers: seq<Answer>)
    requires v in s.vmas && |answers| == PageCount(addr, s.vmas[v].end) && AllMapped(answers)
    ensures var e := Prepage(s, v, addr, answers).0;
            e.allocCount == s.allocCount + |answers| && |e.pageList| == |s.pageList| + |answers|
    decreases if addr < s.vmas[v].end then s.vmas[v].end - addr else 0
  {
    if addr < s.vmas[v].end {
      PrepageCounts(DoFault(s, v, addr, answers[0]).0, v, addr + PAGE_SIZE, answers[1..]);
    }
  }

  lemma AlignedIsFixed(addr: nat)
    requires Aligned(addr)
    ensures PageAlign(addr) == addr
  {
  }

  lemma PageCountStep(addr: nat, end: nat)
    requires addr < end
    ensures PageCount(addr, end) == 1 + PageCount(addr + PAGE_SIZE, end)
  {
  }

  /** The pages the loop maps from `addr` on: one for each page of [addr, end), in order. */
  lemma {:induction false} PrepageMaps(s: State, v: VmaId, addr: nat, answers: seq<Answer>)
    requires v in s.vmas && |answers| == PageCount(addr, s.vmas[v].end) && AllMapped(answers)
    requires Aligned(addr)
    ensures var e := Prepage(s, v, addr, answers).0;
            && v in e.vmas
            && (forall a: nat :: a in e.vmas[v].mapped <==>
                  a in s.vmas[v].mapped || (Aligned(a) && addr <= a < s.vmas[v].end))
    decreases if addr < s.vmas[v].end then s.vmas[v].end - addr else 0
  {
    var end := s.vmas[v].end;
    if addr < end {
      AlignedIsFixed(addr);
      PageCountStep(addr, end);
      hide PageAlign, PageCount;
      var s1 := DoFault(s, v, addr, answers[0]).0;
      PrepageMaps(s1, v, addr + PAGE_SIZE, answers[1..]);
      forall a: nat | Aligned(a) && addr <= a < end
        ensures a == addr || addr + PAGE_SIZE <= a
      {
      }
    }
  }

  /** A pre-paging mmap that succeeds reaches the state of a demand-paging mmap followed by one fault
      per page in ascending order, and maps every page of the range once. */
  lemma PrepagingIsEagerDemand(s: State, v: VmaId, start: nat, end: nat, record: RecordId, answers: seq<Answer>)
    requires Possible(s, Mmap(v, start, end, record, true, answers))
    requires AllMapped(answers) && Aligned(start) && Aligned(end) && start <= end
    requires |answers| == PageCount(start, end)
    ensures var mmap := Mmap(v, start, end, record, true, answers);
            var eager := Apply(s.(demandPaging := false), mmap);
            var lazy := Apply(s.(demandPaging := true), mmap);
            var faults := FaultEvents(v, start, end, answers);
            && Legal(lazy, faults) && Execute(lazy, faults) == eager.(demandPaging := true)
            && v in eager.vmas
            && (forall a: nat :: a in eager.vmas[v].mapped <==> Aligned(a) && start <= a < end)
            && eager.allocCount == s.allocCount + (end - start) / PAGE_SIZE
            && |eager.pageList| == |s.pageList| + (end - start) / PAGE_SIZE
  {
    var s1 := WithMapping(s.(demandPaging := false), v, start, end, record);
    PrepageIsFaults(s1, v, start, answers, true);
    PrepageMaps(s1, v, start, answers);
    PrepageCounts(s1, v, start, answers);
    assert s1.(demandPaging := true) == WithMapping(s.(demandPaging := true), v, start, end, record);
    PageCountAligned(start, end);
  }

  lemma PageCountAligned(start: nat, end: nat)
    requires Aligned(start) && Aligned(end) && start <= end
    ensures PageCount(start, end) == (end - start) / PAGE_SIZE
  {
  }

  // ---- Pre-paging that fails ----

  lemma {:induction false} PrepageSucceeds(s: State, v: VmaId, addr: nat, answers: seq<Answer>)
    requires v in s.vmas && |answers| >= PageCount(addr, s.vmas[v].end)
    requires forall k :: 0 <= k < PageCount(addr, s.vmas[v].end) ==> answers[k].Mapped?
    ensures Prepage(s, v, addr, answers).1 == FaultNopage
    decreases if addr < s.vmas[v].end then s.vmas[v].end - addr else 0
  {
    if addr < s.vmas[v].end {
      PageCountStep(addr, s.vmas[v].end);
      hide PageCount;
      PrepageSucceeds(DoFault(s, v, addr, answers[0]).0, v, addr + PAGE_SIZE, answers[1..]);
    }
  }

  lemma {:induction false} PrepageFailsAt(s: State, v: VmaId, addr: nat, answers: seq<Answer>, k: nat)
    requires v in s.vmas && |answers| >= PageCount(addr, s.vmas[v].end) && k < PageCount(addr, s.vmas[v].end)
    requires (forall j :: 0 <= j < k ==> answers[j].Mapped?) && !answers[k].Mapped?
    ensures var (e, r) := Prepage(s, v, addr, answers);
            && r == (if answers[k].NoPage? then FaultOom else FaultSigbus)
            && e.allocCount == s.allocCount + k && |e.pageList| == |s.pageList| + k
    decreases k
  {
    if k > 0 {
      PrepageFailsAt(DoFault(s, v, addr, answers[0]).0, v, addr + PAGE_SIZE, answers[1..], k - 1);
    }
  }

  /** An mmap whose page number k cannot be had leaves no VMA, but k listed pages and a record behind. */
  lemma FailedPrepagingStrands(s: State, v: VmaId, start: nat, end: nat, record: RecordId, answers: seq<Answer>, k: nat)
    requires Inv(s) && !s.demandPaging && Possible(s, Mmap(v, start, end, record, true, answers))
    requires k < PageCount(start, end) && (forall j :: 0 <= j < k ==> answers[j].Mapped?) && !answers[k].Mapped?
    ensures var e := Apply(s, Mmap(v, start, end, record, true, answers));
            && e.vmas == s.vmas && e.records == s.records[record := 1]
            && |e.pageList| == |s.pageList| + k && e.allocCount == s.allocCount + k && e.freeCount == s.freeCount
            && (e.stranded <==> s.stranded || k > 0) && e.abandoned == s.abandoned + {record}
  {
    var s1 := WithMapping(s, v, start, end, record);
    NewMappingInv(s, v, start, end, record);
    PrepageInv(s1, v, start, answers);
    PrepageFailsAt(s1, v, start, answers, k);
    LoopFailedAfterFaults(s, Prepage(s1, v, start, answers).0, v, start, end, record);
  }
}
