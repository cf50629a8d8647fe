/** The page block of studios/studio12/kernel_memory.c: its size in pages and as a power of two, the
    loops that fill it with numbered structs, and the check at module exit. A page is `pageWords`
    32-bit words long, an `unsigned int` is one word, a struct is `ARR_SIZE` words. */
module KernelMemory {
  import opened Arithmetic

  const UINT_VALUES: nat := 0x1_0000_0000
  const ARR_SIZE: nat := 8

  // ---- value & (value - 1) ----

  /** The `&` of C on unsigned values, bit by bit. */
  function BitAnd(x: nat, y: nat): nat {
    if x == 0 || y == 0 then 0 else (if x % 2 == 1 && y % 2 == 1 then 1 else 0) + 2 * BitAnd(x / 2, y / 2)
  }

  lemma {:induction false} AndWithItself(x: nat)
    ensures BitAnd(x, x) == x
  {
    if x > 0 {
      AndWithItself(x / 2);
    }
  }

  lemma HalfOfPower(x: nat, k: nat)
    requires x > 1 && x == Pow2(k)
    ensures k >= 1 && x % 2 == 0 && x / 2 == Pow2(k - 1)
  {
  }

  lemma EvenAndPredecessor(x: nat)
    requires x > 1 && x % 2 == 0
    ensures BitAnd(x, x - 1) == 2 * BitAnd(x / 2, x / 2 - 1)
  {
    assert (x - 1) / 2 == x / 2 - 1;
  }

  lemma OddAndPredecessor(x: nat)
    requires x > 1 && x % 2 == 1
    ensures BitAnd(x, x - 1) > 0
  {
    assert (x - 1) / 2 == x / 2;
    AndWithItself(x / 2);
  }

  /** The power-of-two test of `my_get_order` is exact. */
  lemma {:induction false} AndPredecessor(x: nat)
    requires x >= 1
    ensures BitAnd(x, x - 1) == 0 <==> IsPowerOfTwo(x)
  {
    if x == 1 {
      PowerOfTwo(0);
    } else if IsPowerOfTwo(x) {
      var k: nat :| x == Pow2(k);
      HalfOfPower(x, k);
      EvenAndPredecessor(x);
      AndPredecessor(x / 2);
      PowerOfTwo(k - 1);
    } else if x % 2 == 1 {
      OddAndPredecessor(x);
    } else {
      EvenAndPredecessor(x);
      AndPredecessor(x / 2);
      if IsPowerOfTwo(x / 2) {
        var k: nat :| x / 2 == Pow2(k);
        PowerOfTwo(k + 1);
      }
    }
  }

  // ---- The order of an allocation ----

  /** How often the loop can shift right before nothing is left. */
  function BitLength(v: nat): nat {
    if v == 0 then 0 else 1 + BitLength(v / 2)
  }

  lemma {:induction false} BitLengthBounds(v: nat)
    ensures v < Pow2(BitLength(v))
    ensures v > 0 ==> Pow2(BitLength(v) - 1) <= v
  {
    if v > 0 {
      BitLengthBounds(v / 2);
    }
  }

  ghost predicate IsOrder(value: nat, order: nat) {
    value <= Pow2(order) && forall k: nat :: value <= Pow2(k) ==> order <= k
  }

  /** Shifts of `value - 1` for a power of two, of `value` otherwise, both give the least order. */
  lemma ShiftsAreOrder(value: nat, v: nat)
    requires value >= 1
    requires v == if IsPowerOfTwo(value) then value - 1 else value
    ensures IsOrder(value, BitLength(v))
  {
    BitLengthBounds(v);
    var order := BitLength(v);
    forall k: nat | value <= Pow2(k)
      ensures order <= k
    {
      if order >= 1 {
        assert Pow2(order - 1) < value;
        if k < order {
          Pow2Monotone(k, order - 1);
        }
      }
    }
  }

  /** my_get_order: the least power of two that covers `value`. */
  method MyGetOrder(value: nat) returns (shifts: nat)
    requires value < UINT_VALUES
    ensures value == 0 ==> shifts == 0
    ensures value >= 1 ==> IsOrder(value, shifts)
  {
    shifts := 0;
    if value == 0 {
      return;
    }
    var v := value;
    AndPredecessor(value);
    if BitAnd(value, value - 1) == 0 {
      v := v - 1;
    }
    ShiftsAreOrder(value, v);
    ghost var start := v;
    while v > 0
      invariant shifts + BitLength(v) == BitLength(start)
    {
      v := v / 2;
      shifts := shifts + 1;
    }
  }

  // ---- The block ----

  datatype Block = Block(pageWords: nat, nrStructs: nat) {
    /** Linux pages have at least 4096 bytes; `nr_structs` is a uint. */
    predicate Valid() {
      pageWords >= 1024 && nrStructs < UINT_VALUES
    }

    /** As many whole structs as a page holds. */
    function PerPage(): (per: nat)
      ensures per * ARR_SIZE <= pageWords < (per + 1) * ARR_SIZE
    {
      pageWords / ARR_SIZE
    }

    function Pages(): nat
      requires Valid()
    {
      nrStructs / PerPage() + if nrStructs % PerPage() != 0 then 1 else 0
    }

    /** Word k of struct j on page i, counted in words from the start of the block. */
    function Word(i: nat, j: nat, k: nat): nat {
      i * pageWords + j * ARR_SIZE + k
    }

    /** `i*nr_structs_per_page*ARR_SIZE + j*ARR_SIZE + k` in 32-bit unsigned arithmetic. */
    function FillValue(i: nat, j: nat, k: nat): nat {
      (i * PerPage() * ARR_SIZE + j * ARR_SIZE + k) % UINT_VALUES
    }

    /** How many cells come before this one. */
    function Number(i: nat, j: nat, k: nat): nat {
      (i * PerPage() + j) * ARR_SIZE + k
    }

    function Cells(): nat
      requires Valid()
    {
      Pages() * PerPage() * ARR_SIZE
    }

    predicate IsCell(i: nat, j: nat, k: nat)
      requires Valid()
    {
      i < Pages() && j < PerPage() && k < ARR_SIZE
    }
  }

  lemma DivCeil(n: nat, d: nat)
    requires d > 0
    ensures var q := n / d + if n % d != 0 then 1 else 0; n <= q * d && (q > 0 ==> (q - 1) * d < n)
  {
  }

  /** The block has room for all structs, not a page more than they need, and the loop counters of
      type int reach every page. */
  lemma BlockHasRoom(b: Block, order: nat)
    requires b.Valid() && (b.Pages() == 0 ==> order == 0) && (b.Pages() >= 1 ==> IsOrder(b.Pages(), order))
    ensures b.nrStructs <= b.Pages() * b.PerPage() && b.Pages() <= Pow2(order)
    ensures b.Pages() > 0 ==> (b.Pages() - 1) * b.PerPage() < b.nrStructs
    ensures order > 0 ==> Pow2(order - 1) < b.Pages()
    ensures b.Pages() < 0x8000_0000
  {
    DivCeil(b.nrStructs, b.PerPage());
    if b.Pages() > 0 {
      MulMonotone(128, b.PerPage(), b.Pages() - 1);
    }
  }

  ghost predicate FitsPage(pageWords: nat, perPage: nat) {
    perPage * ARR_SIZE <= pageWords
  }

  /** So many pages of that many words have room for the structs, with each struct whole on its page. */
  ghost predicate Room(pageWords: nat, structs: nat, pages: nat) {
    exists perPage: nat :: FitsPage(pageWords, perPage) && structs <= pages * perPage
  }

  /** No smaller number of pages would do. */
  lemma PagesAreLeast(b: Block, pages: nat)
    requires b.Valid()
    ensures Room(b.pageWords, b.nrStructs, pages) <==> b.Pages() <= pages
  {
    DivCeil(b.nrStructs, b.PerPage());
    if b.Pages() <= pages {
      MulMonotone(b.Pages(), pages, b.PerPage());
      assert FitsPage(b.pageWords, b.PerPage());
    } else if Room(b.pageWords, b.nrStructs, pages) {
      var perPage: nat :| FitsPage(b.pageWords, perPage) && b.nrStructs <= pages * perPage;
      MulMonotone(perPage, b.PerPage(), pages);
      MulMonotone(pages, b.Pages() - 1, b.PerPage());
    }
  }

  /** Nor would any smaller power of two. */
  lemma OrderIsLeast(b: Block, order: nat, o: nat)
    requires b.Valid() && (b.Pages() == 0 ==> order == 0) && (b.Pages() >= 1 ==> IsOrder(b.Pages(), order))
    ensures Room(b.pageWords, b.nrStructs, Pow2(o)) <==> order <= o
  {
    PagesAreLeast(b, Pow2(o));
    hide Room, Block.Pages;
    if order <= o {
      Pow2Monotone(order, o);
    }
  }

  /** How the cells lie in memory: structs of ARR_SIZE words one after the other, pages one after the
      other. */
  lemma WordLayout(b: Block, i: nat, j: nat, k: nat)
    ensures b.Word(0, 0, 0) == 0 && b.Word(i, j, k + 1) == b.Word(i, j, k) + 1
    ensures b.Word(i, j + 1, 0) == b.Word(i, j, 0) + ARR_SIZE
    ensures b.Word(i + 1, 0, 0) == b.Word(i, 0, 0) + b.pageWords
  {
    OneMore(i, b.pageWords);
  }

  lemma WordInside(b: Block, order: nat, i: nat, j: nat, k: nat)
    requires b.Valid() && b.IsCell(i, j, k) && b.Pages() <= Pow2(order)
    ensures i * b.pageWords <= b.Word(i, j, k) < (i + 1) * b.pageWords
    ensures (i + 1) * b.pageWords <= b.Pages() * b.pageWords <= Pow2(order) * b.pageWords
  {
    assert j * ARR_SIZE + k < b.PerPage() * ARR_SIZE <= b.pageWords;
    MulMonotone(i + 1, b.Pages(), b.pageWords);
    MulMonotone(b.Pages(), Pow2(order), b.pageWords);
  }

  lemma OffsetInPage(b: Block, j: nat, k: nat)
    requires b.Valid() && j < b.PerPage() && k < ARR_SIZE
    ensures j * ARR_SIZE + k < b.pageWords
  {
  }

  /** No two cells share a word. */
  lemma WordInjective(b: Block, i: nat, j: nat, k: nat, i': nat, j': nat, k': nat)
    requires b.Valid() && b.IsCell(i, j, k) && b.IsCell(i', j', k')
    ensures b.Word(i, j, k) == b.Word(i', j', k') ==> i == i' && j == j' && k == k'
  {
    OffsetInPage(b, j, k);
    OffsetInPage(b, j', k');
    if b.Word(i, j, k) == b.Word(i', j', k') {
      OffsetInjective(b.pageWords, i, j * ARR_SIZE + k, i', j' * ARR_SIZE + k');
    }
  }

  lemma NumberBound(b: Block, i: nat, j: nat, k: nat)
    requires b.Valid() && b.IsCell(i, j, k)
    ensures b.Number(i, j, k) < b.Cells()
  {
    hide Block.Pages, Block.PerPage;
    OffsetBound(b.Pages(), b.PerPage(), i, j);
    OffsetBound(b.Pages() * b.PerPage(), ARR_SIZE, i * b.PerPage() + j, k);
  }

  lemma NumberInjective(b: Block, i: nat, j: nat, k: nat, i': nat, j': nat, k': nat)
    requires b.Valid() && b.IsCell(i, j, k) && b.IsCell(i', j', k')
    ensures b.Number(i, j, k) == b.Number(i', j', k') ==> i == i' && j == j' && k == k'
  {
    hide Block.Pages, Block.PerPage;
    if b.Number(i, j, k) == b.Number(i', j', k') {
      OffsetInjective(ARR_SIZE, i * b.PerPage() + j, k, i' * b.PerPage() + j', k');
      OffsetInjective(b.PerPage(), i, j, i', j');
    }
  }

  /** The cell with a given number. */
  lemma CellOf(b: Block, number: nat) returns (i: nat, j: nat, k: nat)
    requires b.Valid() && number < b.Cells()
    ensures b.IsCell(i, j, k) && b.Number(i, j, k) == number
  {
    hide Block.Pages, Block.PerPage;
    i, j, k := DivModTwice(b.Pages(), b.PerPage(), ARR_SIZE, number);
  }

  ghost predicate FillValuesDistinct(b: Block)
    requires b.Valid()
  {
    forall i: nat, j: nat, k: nat, i': nat, j': nat, k': nat |
      b.IsCell(i, j, k) && b.IsCell(i', j', k') && b.FillValue(i, j, k) == b.FillValue(i', j', k') ::
      i == i' && j == j' && k == k'
  }

  lemma FillValueIsNumber(b: Block, i: nat, j: nat, k: nat)
    ensures b.FillValue(i, j, k) == b.Number(i, j, k) % UINT_VALUES
  {
    assert (i * b.PerPage() + j) * ARR_SIZE == i * b.PerPage() * ARR_SIZE + j * ARR_SIZE;
  }

  lemma SameFillValue(b: Block, i: nat, j: nat, k: nat, i': nat, j': nat, k': nat)
    requires b.Valid() && b.IsCell(i, j, k) && b.IsCell(i', j', k') && b.Cells() <= UINT_VALUES
    ensures b.FillValue(i, j, k) == b.FillValue(i', j', k') ==> i == i' && j == j' && k == k'
  {
    FillValueIsNumber(b, i, j, k);
    FillValueIsNumber(b, i', j', k');
    hide Block.Pages, Block.PerPage, Block.FillValue, Block.Number;
    NumberBound(b, i, j, k);
    NumberBound(b, i', j', k');
    NumberInjective(b, i, j, k, i', j', k');
  }

  lemma FillValuesRepeat(b: Block)
    requires b.Valid() && b.Cells() > UINT_VALUES
    ensures !FillValuesDistinct(b)
  {
    var i, j, k := CellOf(b, UINT_VALUES);
    var i', j', k' := CellOf(b, 0);
    FillValueIsNumber(b, i, j, k);
    FillValueIsNumber(b, i', j', k');
    hide Block.FillValue, Block.Pages, Block.PerPage;
    assert b.FillValue(i, j, k) == b.FillValue(i', j', k') == 0;
    assert i != i' || j != j' || k != k';
  }

  lemma NextNumber(x: nat)
    ensures (x + 1) % UINT_VALUES == (x % UINT_VALUES + 1) % UINT_VALUES
  {
  }

  lemma NumbersCount(b: Block, i: nat, j: nat, k: nat)
    requires b.Valid()
    ensures b.Number(0, 0, 0) == 0 && b.Number(i, j, k + 1) == b.Number(i, j, k) + 1
    ensures b.Number(i, j + 1, 0) == b.Number(i, j, ARR_SIZE - 1) + 1
    ensures b.Number(i + 1, 0, 0) == b.Number(i, b.PerPage() - 1, ARR_SIZE - 1) + 1
  {
    OneMore(i, b.PerPage());
    hide Block.PerPage;
  }

  /** The value of a cell whose number is one more than another's. */
  lemma NextFillValue(b: Block, i: nat, j: nat, k: nat, i': nat, j': nat, k': nat)
    requires b.Number(i', j', k') == b.Number(i, j, k) + 1
    ensures b.FillValue(i', j', k') == (b.FillValue(i, j, k) + 1) % UINT_VALUES
  {
    FillValueIsNumber(b, i, j, k);
    FillValueIsNumber(b, i', j', k');
    hide Block.FillValue, Block.Number;
    NextNumber(b.Number(i, j, k));
  }

  /** The fill values count the cells in the order of the loops, modulo 2^32: from word to word, from
      struct to struct and from page to page. */
  lemma FillValuesCount(b: Block, i: nat, j: nat, k: nat)
    requires b.Valid()
    ensures b.FillValue(0, 0, 0) == 0
    ensures b.FillValue(i, j, k + 1) == (b.FillValue(i, j, k) + 1) % UINT_VALUES
    ensures b.FillValue(i, j + 1, 0) == (b.FillValue(i, j, ARR_SIZE - 1) + 1) % UINT_VALUES
    ensures b.FillValue(i + 1, 0, 0) == (b.FillValue(i, b.PerPage() - 1, ARR_SIZE - 1) + 1) % UINT_VALUES
  {
    NumbersCount(b, i, j, k);
    FillValueIsNumber(b, 0, 0, 0);
    hide Block.FillValue, Block.Number, Block.PerPage;
    NextFillValue(b, i, j, k, i, j, k + 1);
    NextFillValue(b, i, j, ARR_SIZE - 1, i, j + 1, 0);
    NextFillValue(b, i, b.PerPage() - 1, ARR_SIZE - 1, i + 1, 0, 0);
  }

  /** The fill values tell all cells of the block apart exactly when there are no more cells than
      32-bit numbers: up to there they count the cells, afterwards they repeat. */
  lemma FillValuesTellCellsApart(b: Block)
    requires b.Valid()
    ensures FillValuesDistinct(b) <==> b.Cells() <= UINT_VALUES
  {
    if b.Cells() <= UINT_VALUES {
      forall i: nat, j: nat, k: nat, i': nat, j': nat, k': nat |
        b.IsCell(i, j, k) && b.IsCell(i', j', k') && b.FillValue(i, j, k) == b.FillValue(i', j', k')
        ensures i == i' && j == j' && k == k'
      {
        SameFillValue(b, i, j, k, i', j', k');
      }
    } else {
      FillValuesRepeat(b);
    }
  }

  /** The cells that the loops visit before they come to (i, j, k). */
  predicate Before(i: nat, j: nat, k: nat, i': nat, j': nat, k': nat) {
    i' < i || (i' == i && (j' < j || (j' == j && k' < k)))
  }

  ghost predicate FilledBefore(b: Block, mem: seq<nat>, i: nat, j: nat, k: nat)
    requires b.Valid()
  {
    forall i': nat, j': nat, k': nat | b.IsCell(i', j', k') && Before(i, j, k, i', j', k') ::
      b.Word(i', j', k') < |mem| && mem[b.Word(i', j', k')] == b.FillValue(i', j', k')
  }

  ghost predicate Filled(b: Block, mem: seq<nat>)
    requires b.Valid()
  {
    forall i: nat, j: nat, k: nat | b.IsCell(i, j, k) ::
      b.Word(i, j, k) < |mem| && mem[b.Word(i, j, k)] == b.FillValue(i, j, k)
  }

  lemma FillOne(b: Block, mem: seq<nat>, i: nat, j: nat, k: nat)
    requires b.Valid() && b.IsCell(i, j, k) && b.Word(i, j, k) < |mem| && FilledBefore(b, mem, i, j, k)
    ensures FilledBefore(b, mem[b.Word(i, j, k) := b.FillValue(i, j, k)], i, j, k + 1)
  {
    forall i': nat, j': nat, k': nat | b.IsCell(i', j', k') && Before(i, j, k, i', j', k')
      ensures b.Word(i', j', k') != b.Word(i, j, k)
    {
      WordInjective(b, i, j, k, i', j', k');
    }
  }

  lemma NothingVisited(b: Block, mem: seq<nat>)
    requires b.Valid()
    ensures FilledBefore(b, mem, 0, 0, 0)
  {
  }

  lemma NextStruct(b: Block, mem: seq<nat>, i: nat, j: nat)
    requires b.Valid()
    ensures FilledBefore(b, mem, i, j, ARR_SIZE) <==> FilledBefore(b, mem, i, j + 1, 0)
  {
    hide Block.Word, Block.FillValue, Block.Pages, Block.PerPage;
  }

  lemma NextPage(b: Block, mem: seq<nat>, i: nat)
    requires b.Valid()
    ensures FilledBefore(b, mem, i, b.PerPage(), 0) <==> FilledBefore(b, mem, i + 1, 0, 0)
  {
    hide Block.Word, Block.FillValue, Block.Pages, Block.PerPage;
  }

  lemma AllVisited(b: Block, mem: seq<nat>)
    requires b.Valid()
    ensures FilledBefore(b, mem, b.Pages(), 0, 0) <==> Filled(b, mem)
  {
    hide Block.Word, Block.FillValue, Block.Pages, Block.PerPage;
  }

  lemma CheckOne(b: Block, mem: seq<nat>, i: nat, j: nat, k: nat)
    requires b.Valid() && b.IsCell(i, j, k) && b.Word(i, j, k) < |mem|
    ensures FilledBefore(b, mem, i, j, k + 1) <==>
              FilledBefore(b, mem, i, j, k) && mem[b.Word(i, j, k)] == b.FillValue(i, j, k)
  {
    hide Block.Word, Block.FillValue, Block.Pages, Block.PerPage;
  }

  /** The fill loops of thread_fn, on the block that alloc_pages has delivered. */
  method Fill(b: Block, order: nat, mem: array<nat>)
    requires b.Valid() && b.Pages() <= Pow2(order) && mem.Length == Pow2(order) * b.pageWords
    modifies mem
    ensures Filled(b, mem[..])
    ensures forall w :: b.Pages() * b.pageWords <= w < mem.Length ==> mem[w] == old(mem[w])
  {
    hide FilledBefore, Filled, Block.Word, Block.FillValue, Block.Pages, Block.PerPage, Pow2;
    NothingVisited(b, mem[..]);
    for i := 0 to b.Pages()
      invariant FilledBefore(b, mem[..], i, 0, 0)
      invariant forall w :: b.Pages() * b.pageWords <= w < mem.Length ==> mem[w] == old(mem[w])
    {
      for j := 0 to b.PerPage()
        invariant FilledBefore(b, mem[..], i, j, 0)
        invariant forall w :: b.Pages() * b.pageWords <= w < mem.Length ==> mem[w] == old(mem[w])
      {
        for k := 0 to ARR_SIZE
          invariant FilledBefore(b, mem[..], i, j, k)
          invariant forall w :: b.Pages() * b.pageWords <= w < mem.Length ==> mem[w] == old(mem[w])
        {
          WordInside(b, order, i, j, k);
          FillOne(b, mem[..], i, j, k);
          ghost var before := mem[..];
          mem[b.Word(i, j, k)] := b.FillValue(i, j, k);
          assert mem[..] == before[b.Word(i, j, k) := b.FillValue(i, j, k)];
        }
        NextStruct(b, mem[..], i, j);
      }
      NextPage(b, mem[..], i);
    }
    AllVisited(b, mem[..]);
  }

  /** The check of kernel_memory_exit: clean exactly when every cell still holds its fill value. */
  method Check(b: Block, order: nat, mem: array<nat>) returns (cleanData: bool)
    requires b.Valid() && b.Pages() <= Pow2(order) && mem.Length == Pow2(order) * b.pageWords
    ensures cleanData <==> Filled(b, mem[..])
  {
    hide FilledBefore, Filled, Block.Word, Block.FillValue, Block.Pages, Block.PerPage, Pow2;
    cleanData := true;
    NothingVisited(b, mem[..]);
    for i := 0 to b.Pages()
      invariant cleanData <==> FilledBefore(b, mem[..], i, 0, 0)
    {
      for j := 0 to b.PerPage()
        invariant cleanData <==> FilledBefore(b, mem[..], i, j, 0)
      {
        for k := 0 to ARR_SIZE
          invariant cleanData <==> FilledBefore(b, mem[..], i, j, k)
        {
          WordInside(b, order, i, j, k);
          CheckOne(b, mem[..], i, j, k);
          if mem[b.Word(i, j, k)] != b.FillValue(i, j, k) {
            cleanData := false;
          }
        }
        NextStruct(b, mem[..], i, j);
      }
      NextPage(b, mem[..], i);
    }
    AllVisited(b, mem[..]);
  }

  /** thread_fn: sizes the block, allocates it and fills it. When alloc_pages fails it only prints a
      warning and goes on with a null page, whose address is undefined: the run ends there. */
  method ThreadFn(b: Block, allocOk: bool) returns (order: nat, mem: array?<nat>)
    requires b.Valid()
    ensures b.nrStructs <= b.Pages() * b.PerPage() && b.Pages() <= Pow2(order)
    ensures forall o: nat :: Room(b.pageWords, b.nrStructs, Pow2(o)) <==> order <= o
    ensures mem == null <==> !allocOk
    ensures mem != null ==> fresh(mem) && mem.Length == Pow2(order) * b.pageWords && Filled(b, mem[..])
  {
    MulMonotone(1, b.PerPage(), b.Pages());
    assert b.Pages() < UINT_VALUES;
    order := MyGetOrder(b.Pages());
    BlockHasRoom(b, order);
    forall o: nat
      ensures Room(b.pageWords, b.nrStructs, Pow2(o)) <==> order <= o
    {
      OrderIsLeast(b, order, o);
    }
    hide Room, Block.Pages, Block.PerPage, IsOrder;
    if !allocOk {
      return order, null;
    }
    var pages := new nat[Pow2(order) * b.pageWords];
    Fill(b, order, pages);
    mem := pages;
  }
}
