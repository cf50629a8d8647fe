/** What the handlers of labs/lab2/mod/paging.c do, on values: one event of the kernel is one atomic
    step. A page, a VMA and a `pa_state_struct` are known by a number, as a pointer would know them. */
module PagingModel {
  const PAGE_SIZE: nat := 4096

  type PageId = nat
  type VmaId = nat
  type RecordId = nat

  /** A VMA that uses the module: its record is `vm_private_data`, `mapped` its page-table entries. */
  datatype Vma = Vma(start: nat, end: nat, record: RecordId, mapped: map<nat, PageId>)

  /** `owned` are the pages `alloc_page` gave the module and `__free_page` has not taken back;
      `records` the allocated `pa_state_struct`s with their `ref_count`. Two histories are kept for
      the proofs: `abandoned`, the records of failed mmaps, and `stranded`, whether a failed mmap
      has left pages behind since the list was last emptied. */
  datatype State = State(
    demandPaging: bool, pageList: seq<PageId>, allocCount: int, freeCount: int,
    owned: set<PageId>, records: map<RecordId, int>, vmas: map<VmaId, Vma>,
    abandoned: set<RecordId>, stranded: bool)

  /** How `alloc_page` and `remap_pfn_range` answer one fault. */
  datatype Answer = NoPage | NoRemap(page: PageId) | Mapped(page: PageId)

  datatype FaultResult = FaultOom | FaultSigbus | FaultNopage

  datatype Event =
    | Mmap(v: VmaId, start: nat, end: nat, record: RecordId, kmallocOk: bool, answers: seq<Answer>)
    | Fault(v: VmaId, addr: nat, answer: Answer)
    | Split(v: VmaId, mid: nat, upper: VmaId)
    | Remap(v: VmaId, to: nat, w: VmaId)
    | Close(v: VmaId)
    | SetDemand(on: bool)

  function PageAlign(addr: nat): nat {
    (addr + PAGE_SIZE - 1) / PAGE_SIZE * PAGE_SIZE
  }

  predicate Aligned(addr: nat) {
    addr % PAGE_SIZE == 0
  }

  /** Pages of [start, end) that the pre-paging loop visits. */
  function PageCount(start: nat, end: nat): nat {
    if start >= end then 0 else 1 + (end - start - 1) / PAGE_SIZE
  }

  // ---- The handlers ----

  /** `do_fault` */
  function DoFault(s: State, v: VmaId, addr: nat, answer: Answer): (State, FaultResult)
    requires v in s.vmas
  {
    match answer
    case NoPage => (s, FaultOom)
    case NoRemap(_) => (s, FaultSigbus)
    case Mapped(page) =>
      var vma := s.vmas[v];
      (s.(pageList := [page] + s.pageList,
          owned := s.owned + {page},
          allocCount := s.allocCount + 1,
          vmas := s.vmas[v := vma.(mapped := vma.mapped[PageAlign(addr) := page])]),
       FaultNopage)
  }

  /** The pre-paging loop of `paging_mmap`, up to the first failure. */
  function Prepage(s: State, v: VmaId, addr: nat, answers: seq<Answer>): (State, FaultResult)
    requires v in s.vmas && |answers| >= PageCount(addr, s.vmas[v].end)
    decreases if addr < s.vmas[v].end then s.vmas[v].end - addr else 0
  {
    if addr >= s.vmas[v].end then (s, FaultNopage)
    else
      var (s', r) := DoFault(s, v, addr, answers[0]);
      if r != FaultNopage then (s', r) else Prepage(s', v, addr + PAGE_SIZE, answers[1..])
  }

  /** The kernel drops the VMA of a failed mmap without calling `close`: nobody frees its record. */
  function FailMmap(s: State, before: State, v: VmaId, record: RecordId): State {
    s.(vmas := s.vmas - {v},
       abandoned := s.abandoned + {record},
       stranded := s.stranded || |s.pageList| > |before.pageList|)
  }

  /** `paging_mmap` */
  function DoMmap(s: State, v: VmaId, start: nat, end: nat, record: RecordId, answers: seq<Answer>)
    : (State, FaultResult)
    requires |answers| >= PageCount(start, end)
  {
    var s1 := s.(records := s.records[record := 1], vmas := s.vmas[v := Vma(start, end, record, map[])]);
    if s.demandPaging then (s1, FaultNopage)
    else
      var (s2, r) := Prepage(s1, v, start, answers);
      if r == FaultNopage then (s2, r) else (FailMmap(s2, s, v, record), r)
  }

  function Restrict(m: map<nat, PageId>, lo: nat, hi: nat): map<nat, PageId> {
    map a | a in m && lo <= a < hi :: m[a]
  }

  /** `paging_vma_open`: the kernel has made VMA `w` out of `v`, which leaves `low` of it. */
  function DoOpen(s: State, v: VmaId, low: Vma, w: VmaId, high: Vma): State
    requires v in s.vmas && s.vmas[v].record in s.records
  {
    var record := s.vmas[v].record;
    s.(records := s.records[record := s.records[record] + 1], vmas := s.vmas[v := low][w := high])
  }

  function LowPart(vma: Vma, mid: nat): Vma {
    vma.(end := mid, mapped := Restrict(vma.mapped, 0, mid))
  }

  function HighPart(vma: Vma, mid: nat): Vma {
    vma.(start := mid, mapped := vma.mapped - Restrict(vma.mapped, 0, mid).Keys)
  }

  /** A VMA is split at `mid`; the kernel calls `paging_vma_open` for the upper part. */
  function DoSplit(s: State, v: VmaId, mid: nat, upper: VmaId): State
    requires v in s.vmas && s.vmas[v].record in s.records
  {
    DoOpen(s, v, LowPart(s.vmas[v], mid), upper, HighPart(s.vmas[v], mid))
  }

  function OldAddress(vma: Vma, to: nat, b: nat): nat {
    if b < to then vma.start else b - to + vma.start
  }

  /** A copy of the VMA at another address, which takes over its page-table entries. */
  function Shifted(vma: Vma, to: nat): Vma {
    var length: nat := if vma.start <= vma.end then vma.end - vma.start else 0;
    Vma(to, to + length, vma.record,
        map b: nat | to <= b < to + length && OldAddress(vma, to, b) in vma.mapped ::
          vma.mapped[OldAddress(vma, to, b)])
  }

  /** `paging_vma_close`, after the kernel has removed the page-table entries of the VMA. */
  function DoClose(s: State, v: VmaId): State
    requires v in s.vmas && s.vmas[v].record in s.records
  {
    var record := s.vmas[v].record;
    var refs := s.records[record] - 1;
    if refs == 0 then
      s.(pageList := [], freeCount := s.freeCount + |s.pageList|,
         owned := s.owned - Members(s.pageList),
         records := s.records - {record}, vmas := s.vmas - {v}, stranded := false)
    else
      s.(records := s.records[record := refs], vmas := s.vmas - {v})
  }

  /** mremap moves a VMA without resizing it, which VM_DONTEXPAND permits: the kernel opens a copy,
      moves the page-table entries and closes the old VMA. */
  function DoRemap(s: State, v: VmaId, to: nat, w: VmaId): State
    requires v in s.vmas && s.vmas[v].record in s.records && v != w
  {
    DoClose(DoOpen(s, v, s.vmas[v].(mapped := map[]), w, Shifted(s.vmas[v], to)), v)
  }

  function Members(pages: seq<PageId>): set<PageId> {
    set page | page in pages
  }

  function PagesOf(answer: Answer): set<PageId> {
    if answer.NoPage? then {} else {answer.page}
  }

  /** The allocator only hands out pages the module does not own. */
  predicate FreshPages(answers: seq<Answer>, owned: set<PageId>) {
    answers == [] ||
    (PagesOf(answers[0]) !! owned && FreshPages(answers[1..], owned + PagesOf(answers[0])))
  }

  /** What the kernel guarantees about the events it delivers. */
  predicate Possible(s: State, e: Event) {
    match e
    case Mmap(v, start, end, record, _, answers) =>
      v !in s.vmas && record !in s.records && |answers| >= PageCount(start, end) && FreshPages(answers, s.owned)
    case Fault(v, _, answer) => v in s.vmas && PagesOf(answer) !! s.owned
    case Split(v, mid, upper) =>
      v in s.vmas && s.vmas[v].record in s.records && s.vmas[v].start < mid < s.vmas[v].end && upper !in s.vmas
    case Remap(v, _, w) => v in s.vmas && s.vmas[v].record in s.records && w !in s.vmas
    case Close(v) => v in s.vmas && s.vmas[v].record in s.records
    case SetDemand(_) => true
  }

  function Apply(s: State, e: Event): State
    requires Possible(s, e)
  {
    match e
    case Mmap(v, start, end, record, kmallocOk, answers) =>
      if kmallocOk then DoMmap(s, v, start, end, record, answers).0 else s
    case Fault(v, addr, answer) => DoFault(s, v, addr, answer).0
    case Split(v, mid, upper) => DoSplit(s, v, mid, upper)
    case Remap(v, to, w) => DoRemap(s, v, to, w)
    case Close(v) => DoClose(s, v)
    case SetDemand(on) => s.(demandPaging := on)
  }

  const LOADED := State(true, [], 0, 0, {}, map[], map[], {}, false)
}
