/** The paging module's own variables: `ref_page_list` as the kernel's circular doubly linked list,
    the counters, and handlers that update them in place. */
module PagingModule {
  import opened PagingModel
  import opened PagingInvariant

  /** A `ref_page_node`, or the list head (whose page means nothing). */
  class Node {
    const page: PageId
    var next: Node
    var prev: Node

    /** INIT_LIST_HEAD */
    constructor (page: PageId)
      ensures this.page == page && next == this && prev == this
    {
      this.page := page;
      next := this;
      prev := this;
    }
  }

  class PageList {
    const head: Node
    ghost var nodes: seq<Node>

    /** Node number `i`; before the first and after the last one stands the head. */
    ghost function Ring(i: int): Node
      reads this
    {
      if 0 <= i < |nodes| then nodes[i] else head
    }

    /** The nodes form one ring through the head. */
    ghost predicate Valid()
      reads this, head, nodes
    {
      && head !in nodes
      && (forall i, j :: 0 <= i < j < |nodes| ==> nodes[i] != nodes[j])
      && head.next == Ring(0) && head.prev == Ring(|nodes| - 1)
      && (forall i {:trigger nodes[i].next} :: 0 <= i < |nodes| ==> nodes[i].next == Ring(i + 1))
      && (forall i {:trigger nodes[i].prev} :: 0 <= i < |nodes| ==> nodes[i].prev == Ring(i - 1))
    }

    /** What the nodes hold, first to last. */
    ghost function Pages(): seq<PageId>
      reads this
    {
      seq(|nodes|, i requires 0 <= i < |nodes| reads this => nodes[i].page)
    }

    constructor ()
      ensures Valid() && nodes == [] && fresh(head)
    {
      head := new Node(0);
      nodes := [];
    }

    /** kmalloc of a node, INIT_LIST_HEAD and list_add: the page becomes the first of the list. */
    method Add(page: PageId)
      requires Valid()
      modifies this, head, nodes
      ensures Valid() && Pages() == [page] + old(Pages())
      ensures forall i :: 0 <= i < |nodes| ==> nodes[i] in old(nodes) || fresh(nodes[i])
    {
      var node := new Node(page);
      var next := head.next;
      assert next == Ring(0) && (nodes != [] ==> next.prev == Ring(-1));
      next.prev := node;
      node.next := next;
      node.prev := head;
      head.next := node;
      nodes := [node] + nodes;
      assert forall i :: 0 < i < |nodes| ==> nodes[i] == old(nodes)[i - 1];
    }

    /** list_del of the node that stands first. */
    method DeleteFirst(pos: Node)
      requires Valid() && nodes != [] && pos == nodes[0]
      modifies this, head, nodes
      ensures Valid() && nodes == old(nodes)[1..] && Pages() == old(Pages())[1..]
      ensures pos.next == old(pos.next)
    {
      assert pos.prev == Ring(-1) == head && pos.next == Ring(1);
      assert |nodes| > 1 ==> nodes[1].prev == pos;
      pos.next.prev := pos.prev;
      pos.prev.next := pos.next;
      nodes := nodes[1..];
      assert forall i :: 0 <= i < |nodes| ==> nodes[i] == old(nodes)[i + 1];
    }
  }

  lemma NextMember(pages: seq<PageId>, i: nat)
    requires Distinct(pages) && i < |pages|
    ensures Members(pages[..i + 1]) == Members(pages[..i]) + {pages[i]}
    ensures pages[i] !in Members(pages[..i])
    ensures pages[i..][1..] == pages[i + 1..]
  {
  }

  class Module {
    var demandPaging: bool
    const refPageList: PageList
    var allocCount: int
    var freeCount: int
    var records: map<RecordId, int>
    var vmas: map<VmaId, Vma>
    ghost var owned: set<PageId>
    ghost var abandoned: set<RecordId>
    ghost var stranded: bool

    ghost function Snapshot(): State
      reads this, refPageList
    {
      State(demandPaging, refPageList.Pages(), allocCount, freeCount, owned, records, vmas, abandoned, stranded)
    }

    ghost predicate Valid()
      reads this, refPageList, refPageList.head, refPageList.nodes
    {
      refPageList.Valid()
    }

    /** kmod_paging_init */
    constructor (demandPaging: bool)
      ensures Valid() && Init(Snapshot()) && this.demandPaging == demandPaging
      ensures fresh(refPageList) && fresh(refPageList.head) && refPageList.nodes == []
    {
      this.demandPaging := demandPaging;
      refPageList := new PageList();
      allocCount, freeCount := 0, 0;
      records, vmas := map[], map[];
      owned, abandoned, stranded := {}, {}, false;
    }

    /** __free_page: the allocator takes back only pages it has handed out. */
    method FreePage(page: PageId)
      requires page in owned
      modifies this`owned
      ensures owned == old(owned) - {page}
    {
      owned := owned - {page};
    }

    /** do_fault */
    method HandleFault(v: VmaId, addr: nat, answer: Answer) returns (result: FaultResult)
      requires Valid() && v in vmas && PagesOf(answer) !! owned
      modifies this`vmas, this`owned, this`allocCount
      modifies refPageList, refPageList.head, refPageList.nodes
      ensures Valid() && (Snapshot(), result) == DoFault(old(Snapshot()), v, addr, answer)
      ensures v in vmas && vmas[v].end == old(vmas[v]).end && owned <= old(owned) + PagesOf(answer)
      ensures forall i :: 0 <= i < |refPageList.nodes| ==>
                refPageList.nodes[i] in old(refPageList.nodes) || fresh(refPageList.nodes[i])
    {
      if answer.NoPage? {
        return FaultOom;
      }
      owned := owned + {answer.page};
      if answer.NoRemap? {
        FreePage(answer.page);
        return FaultSigbus;
      }
      vmas := vmas[v := vmas[v].(mapped := vmas[v].mapped[PageAlign(addr) := answer.page])];
      refPageList.Add(answer.page);
      allocCount := allocCount + 1;
      result := FaultNopage;
    }

    /** paging_vma_open, once the kernel has made VMA `w` out of `v`. */
    method HandleOpen(v: VmaId, low: Vma, w: VmaId, high: Vma)
      requires Valid() && v in vmas && vmas[v].record in records && low.record == vmas[v].record
      modifies this`vmas, this`records
      ensures Valid() && Snapshot() == DoOpen(old(Snapshot()), v, low, w, high)
    {
      vmas := vmas[v := low][w := high];
      records := records[low.record := records[low.record] + 1];
    }

    /** The kernel splits a VMA and opens the upper part. */
    method HandleSplit(v: VmaId, mid: nat, upper: VmaId)
      requires Valid() && v in vmas && vmas[v].record in records && upper !in vmas
      modifies this`vmas, this`records
      ensures Valid() && Snapshot() == DoSplit(old(Snapshot()), v, mid, upper)
    {
      HandleOpen(v, LowPart(vmas[v], mid), upper, HighPart(vmas[v], mid));
    }

    /** One turn of the loop that empties the list. */
    method FreeFirst(pos: Node)
      requires Valid() && refPageList.nodes != [] && pos == refPageList.nodes[0]
      requires refPageList.Pages()[0] in owned
      modifies this`owned, this`freeCount
      modifies refPageList, refPageList.head, refPageList.nodes
      ensures Valid() && refPageList.nodes == old(refPageList.nodes)[1..]
      ensures refPageList.Pages() == old(refPageList.Pages())[1..] && pos.next == old(pos.next)
      ensures owned == old(owned) - {old(refPageList.Pages()[0])} && freeCount == old(freeCount) + 1
    {
      FreePage(pos.page);
      refPageList.DeleteFirst(pos);
      freeCount := freeCount + 1;
    }

    /** The list_for_each_entry_safe loop of paging_vma_close: every page is one the module still owns. */
    method FreeAllPages()
      requires Valid() && Distinct(refPageList.Pages())
      requires forall page :: page in refPageList.Pages() ==> page in owned
      modifies this`owned, this`freeCount
      modifies refPageList, refPageList.head, refPageList.nodes
      ensures Valid() && refPageList.Pages() == []
      ensures owned == old(owned) - Members(old(refPageList.Pages()))
      ensures freeCount == old(freeCount) + |old(refPageList.Pages())|
      ensures forall i :: 0 <= i < |refPageList.nodes| ==> refPageList.nodes[i] in old(refPageList.nodes)
    {
      ghost var pages := refPageList.Pages();
      ghost var i := 0;
      var pos := refPageList.head.next;
      var temp := pos.next;
      while pos != refPageList.head
        invariant refPageList.Valid()
        invariant forall i :: 0 <= i < |refPageList.nodes| ==> refPageList.nodes[i] in old(refPageList.nodes)
        invariant i <= |pages| && refPageList.Pages() == pages[i..]
        invariant pos == refPageList.Ring(0)
        invariant pos != refPageList.head ==> temp == refPageList.Ring(1)
        invariant freeCount == old(freeCount) + i
        invariant owned == old(owned) - Members(pages[..i])
        decreases |pages| - i
      {
        NextMember(pages, i);
        FreeFirst(pos);
        i := i + 1;
        pos := temp;
        temp := temp.next;
      }
      assert pages[..i] == pages;
    }

    /** paging_vma_close */
    method HandleClose(v: VmaId)
      requires Valid() && ListOk(Snapshot()) && v in vmas && vmas[v].record in records
      modifies this`vmas, this`records, this`owned, this`freeCount, this`stranded
      modifies refPageList, refPageList.head, refPageList.nodes
      ensures Valid() && Snapshot() == DoClose(old(Snapshot()), v)
      ensures forall i :: 0 <= i < |refPageList.nodes| ==> refPageList.nodes[i] in old(refPageList.nodes)
    {
      var record := vmas[v].record;
      records := records[record := records[record] - 1];
      if records[record] == 0 {
        FreeAllPages();
        records := records - {record};
        stranded := false;
      }
      vmas := vmas - {v};
    }

    /** The kernel moves a VMA: it opens a copy and closes the original. */
    method HandleRemap(v: VmaId, to: nat, w: VmaId)
      requires Valid() && ListOk(Snapshot()) && v in vmas && vmas[v].record in records && w !in vmas
      modifies this`vmas, this`records, this`owned, this`freeCount, this`stranded
      modifies refPageList, refPageList.head, refPageList.nodes
      ensures Valid() && Snapshot() == DoRemap(old(Snapshot()), v, to, w)
      ensures forall i :: 0 <= i < |refPageList.nodes| ==> refPageList.nodes[i] in old(refPageList.nodes)
    {
      HandleOpen(v, vmas[v].(mapped := map[]), w, Shifted(vmas[v], to));
      HandleClose(v);
    }

    /** The loop of paging_mmap that faults every page in, until one cannot be had. */
    method PrepageLoop(v: VmaId, answers: seq<Answer>) returns (result: FaultResult)
      requires Valid() && v in vmas && |answers| >= PageCount(vmas[v].start, vmas[v].end)
      requires FreshPages(answers, owned)
      modifies this`vmas, this`owned, this`allocCount
      modifies refPageList, refPageList.head, refPageList.nodes
      ensures Valid() && v in vmas && (Snapshot(), result) == Prepage(old(Snapshot()), v, old(vmas[v]).start, answers)
      ensures forall i :: 0 <= i < |refPageList.nodes| ==>
                refPageList.nodes[i] in old(refPageList.nodes) || fresh(refPageList.nodes[i])
    {
      hide PageList.Valid, PageAlign;
      var addr, end := vmas[v].start, vmas[v].end;
      var left := answers;
      result := FaultNopage;
      while addr < end
        invariant Valid() && v in vmas && vmas[v].end == end
        invariant forall i :: 0 <= i < |refPageList.nodes| ==>
                refPageList.nodes[i] in old(refPageList.nodes) || fresh(refPageList.nodes[i])
        invariant |left| >= PageCount(addr, end) && FreshPages(left, owned)
        invariant Prepage(old(Snapshot()), v, old(vmas[v]).start, answers) == Prepage(Snapshot(), v, addr, left)
      {
        ghost var given := owned + PagesOf(left[0]);
        result := HandleFault(v, addr, left[0]);
        if result != FaultNopage {
          return;
        }
        FreshAfter(left[1..], given, owned);
        addr, left := addr + PAGE_SIZE, left[1..];
      }
      result := FaultNopage;
    }

    /** The kernel gives up the VMA of a failed mmap; the record stays behind. */
    method GiveUp(v: VmaId, record: RecordId, ghost before: State)
      requires Valid()
      modifies this`vmas, this`abandoned, this`stranded
      ensures Valid() && Snapshot() == FailMmap(old(Snapshot()), before, v, record)
    {
      vmas := vmas - {v};
      abandoned := abandoned + {record};
      stranded := stranded || |refPageList.Pages()| > |before.pageList|;
    }

    /** paging_mmap, once its kmalloc has succeeded. */
    method HandleMmap(v: VmaId, start: nat, end: nat, record: RecordId, answers: seq<Answer>)
      returns (result: FaultResult)
      requires Valid() && v !in vmas && record !in records
      requires |answers| >= PageCount(start, end) && FreshPages(answers, owned)
      modifies this, refPageList, refPageList.head, refPageList.nodes
      ensures Valid() && (Snapshot(), result) == DoMmap(old(Snapshot()), v, start, end, record, answers)
      ensures forall i :: 0 <= i < |refPageList.nodes| ==>
                refPageList.nodes[i] in old(refPageList.nodes) || fresh(refPageList.nodes[i])
    {
      ghost var before := Snapshot();
      records := records[record := 1];
      vmas := vmas[v := Vma(start, end, record, map[])];
      result := FaultNopage;
      if !demandPaging {
        result := PrepageLoop(v, answers);
        if result != FaultNopage {
          GiveUp(v, record, before);
        }
      }
    }

    /** Any event the kernel can deliver keeps the counts. */
    method Deliver(e: Event)
      requires Valid() && Inv(Snapshot()) && Possible(Snapshot(), e)
      modifies this, refPageList, refPageList.head, refPageList.nodes
      ensures Valid() && Snapshot() == Apply(old(Snapshot()), e) && Inv(Snapshot())
      ensures forall i :: 0 <= i < |refPageList.nodes| ==>
                refPageList.nodes[i] in old(refPageList.nodes) || fresh(refPageList.nodes[i])
    {
      ApplyInv(Snapshot(), e);
      assert ListOk(Snapshot());
      hide PageList.Valid, Inv, ListOk, PageCount, DoMmap, DoFault, DoSplit, DoRemap, DoClose;
      match e {
        case Mmap(v, start, end, record, kmallocOk, answers) =>
          if kmallocOk {
            var _ := HandleMmap(v, start, end, record, answers);
          }
        case Fault(v, addr, answer) =>
          var _ := HandleFault(v, addr, answer);
        case Split(v, mid, upper) =>
          HandleSplit(v, mid, upper);
        case Remap(v, to, w) =>
          HandleRemap(v, to, w);
        case Close(v) =>
          HandleClose(v);
        case SetDemand(on) =>
          demandPaging := on;
      }
    }
  }
}
