/**
 The pool that hands out every structure of the library by 16-bit index, and the operation lists of
 cycles that live in it as linked cells.
 */
module Memory {
  import opened Words
  import opened Operations

  /** EB_NULL, which also ends the free list. */
  const NULL: nat := 0xFFFF

  /** What a cell holds. The C cell is an untagged union, so that a cell is only ever read as what was
      written there has to be proved: a destructor of the wrong constructor does not verify. */
  datatype Item = Blank | Free(next: nat) | Operation(request: Request, next: nat) | Cycle(first: nat)

  predicate HasNext(i: Item) {
    i.Free? || i.Operation?
  }

  /** Following links from `start` visits exactly `cells`, in order, and then ends. */
  ghost predicate Chain(m: seq<Item>, start: nat, cells: seq<nat>)
    decreases cells
  {
    if |cells| == 0 then start == NULL
    else start == cells[0] && start < |m| && start != NULL && HasNext(m[start]) && Chain(m, m[start].next, cells[1..])
  }

  function Cells(lo: nat, hi: nat): (cells: seq<nat>)
    requires lo <= hi
    ensures |cells| == hi - lo
    ensures forall i: nat :: i in cells <==> (lo <= i < hi)
    decreases hi - lo
  {
    if lo == hi then [] else [lo] + Cells(lo + 1, hi)
  }

  /** What was pushed, read back along a chain. */
  function Requests(m: seq<Item>, cells: seq<nat>): (rs: seq<Request>)
    requires forall i | i in cells :: i < |m| && m[i].Operation?
    ensures |rs| == |cells|
  {
    if |cells| == 0 then [] else assert cells[0] in cells; [m[cells[0]].request] + Requests(m, cells[1..])
  }

  lemma {:induction false} ChainKept(m: seq<Item>, m': seq<Item>, start: nat, cells: seq<nat>)
    requires Chain(m, start, cells) && |m| <= |m'|
    requires forall i | i in cells && i < |m| :: m'[i] == m[i]
    ensures Chain(m', start, cells)
    decreases cells
  {
    if |cells| > 0 {
      ChainKept(m, m', m[start].next, cells[1..]);
    }
  }

  lemma {:induction false} RequestsKept(m: seq<Item>, m': seq<Item>, cells: seq<nat>)
    requires |m| <= |m'|
    requires forall i | i in cells :: i < |m| && m[i].Operation? && m'[i] == m[i]
    ensures Requests(m', cells) == Requests(m, cells)
  {
    if |cells| > 0 {
      RequestsKept(m, m', cells[1..]);
    }
  }

  lemma {:induction false} ChainUnique(m: seq<Item>, start: nat, a: seq<nat>, b: seq<nat>)
    requires Chain(m, start, a) && Chain(m, start, b)
    ensures a == b
    decreases a
  {
    if |a| > 0 && |b| > 0 {
      ChainUnique(m, m[start].next, a[1..], b[1..]);
      assert a == [start] + a[1..] && b == [start] + b[1..];
    }
  }

  lemma {:induction false} ChainFrom(m: seq<Item>, start: nat, cells: seq<nat>, k: nat)
    requires Chain(m, start, cells) && k < |cells|
    ensures Chain(m, cells[k], cells[k..])
    decreases k
  {
    if k > 0 {
      ChainFrom(m, m[start].next, cells[1..], k - 1);
      assert cells[1..][k - 1..] == cells[k..];
    }
  }

  /** A list that ends has no cycle: it never visits a cell twice. */
  lemma ChainAcyclic(m: seq<Item>, start: nat, cells: seq<nat>, j: nat, k: nat)
    requires Chain(m, start, cells) && j < k < |cells|
    ensures cells[j] != cells[k]
  {
    ChainFrom(m, start, cells, j);
    ChainFrom(m, start, cells, k);
    if cells[j] == cells[k] {
      ChainUnique(m, cells[j], cells[j..], cells[k..]);
    }
  }

  /** A list is empty exactly if its head is EB_NULL. */
  lemma ChainHead(m: seq<Item>, start: nat, cells: seq<nat>)
    requires Chain(m, start, cells) && (forall i | i in cells :: i < |m|)
    ensures start == NULL <==> cells == []
    ensures cells != [] ==> start == cells[0] && HasNext(m[start]) && Chain(m, m[start].next, cells[1..])
    ensures cells != [] ==> start !in cells[1..]
  {
    if cells != [] && start in cells[1..] {
      var k :| 0 < k < |cells| && cells[k] == start;
      ChainAcyclic(m, start, cells, 0, k);
    }
  }

  /** Each fresh cell points to the one behind it. */
  lemma {:induction false} CellsChain(m: seq<Item>, lo: nat, hi: nat)
    requires lo < hi <= |m| && hi <= NULL
    requires forall i | lo <= i < hi :: m[i] == Free(if i == hi - 1 then NULL else i + 1)
    ensures Chain(m, lo, Cells(lo, hi))
    decreases hi - lo
  {
    assert Cells(lo, hi)[1..] == Cells(lo + 1, hi);
    if lo + 1 < hi {
      CellsChain(m, lo + 1, hi);
    } else {
      assert Chain(m, NULL, Cells(hi, hi));
    }
  }

  predicate PowerSize(size: nat) {
    size in {128, 256, 512, 1024, 2048, 4096, 8192, 16384, 32768, 65536}
  }

  /** The free list as the values of its cells. */
  ghost predicate FreeOk(m: seq<Item>, head: nat, free: seq<nat>) {
    Chain(m, head, free) && forall i | i in free :: i < |m| && m[i].Free?
  }

  /** Every linked cell is either free or handed out, and neither twice. */
  ghost predicate Shares(free: seq<nat>, live: set<nat>, first: nat, last: nat) {
    && |free| + |live| == last - first && last <= NULL
    && (forall i: nat :: i in free || i in live ==> first <= i < last)
    && (forall i: nat :: first <= i < last ==> i in free || i in live)
    && (forall i | i in free :: i !in live)
  }

  lemma Pop(m: seq<Item>, head: nat, free: seq<nat>, live: set<nat>, first: nat, last: nat)
    requires FreeOk(m, head, free) && Shares(free, live, first, last)
    ensures head == NULL <==> free == []
    ensures head != NULL ==> head < |m| && m[head].Free? && head !in live
    ensures head != NULL ==> FreeOk(m, m[head].next, free[1..]) && Shares(free[1..], live + {head}, first, last)
  {
    ChainHead(m, head, free);
    if free != [] {
      assert free == [head] + free[1..];
      assert forall i: nat :: i in free <==> i == head || i in free[1..];
    }
  }

  lemma Push(m: seq<Item>, head: nat, free: seq<nat>, live: set<nat>, first: nat, last: nat, item: nat)
    requires FreeOk(m, head, free) && Shares(free, live, first, last) && item in live && last <= |m|
    ensures item < |m| && FreeOk(m[item := Free(head)], item, [item] + free)
    ensures Shares([item] + free, live - {item}, first, last)
  {
    var m' := m[item := Free(head)];
    ChainKept(m, m', head, free);
    assert ([item] + free)[1..] == free;
  }

  lemma Fill(m: seq<Item>, live: set<nat>, first: nat, last: nat, last': nat)
    requires Shares([], live, first, last) && first <= last < last' <= NULL && last' <= |m|
    requires forall i | last <= i < last' :: m[i] == Free(if i == last' - 1 then NULL else i + 1)
    ensures FreeOk(m, last, Cells(last, last')) && Shares(Cells(last, last'), live, first, last')
  {
    CellsChain(m, last, last');
  }

  /** Nothing is handed out beyond the linked cells. */
  lemma SharesBounds(free: seq<nat>, live: set<nat>, first: nat, last: nat)
    requires Shares(free, live, first, last)
    ensures forall i | i in live :: first <= i < last
    ensures last <= NULL && |free| + |live| == last - first
  {
  }

  /** The cells in `which` still hold what they held. */
  ghost predicate Kept(m: seq<Item>, m': seq<Item>, which: set<nat>) {
    |m| <= |m'| && forall i | i in which && i < |m| :: m'[i] == m[i]
  }

  lemma FreeKept(m: seq<Item>, m': seq<Item>, head: nat, free: seq<nat>)
    requires FreeOk(m, head, free) && |m| <= |m'| && forall i | i in free && i < |m| :: m'[i] == m[i]
    ensures FreeOk(m', head, free)
  {
    ChainKept(m, m', head, free);
  }

  /** The operations linked from `start` are exactly `cells`, and ask for `rs`. */
  ghost predicate OpList(m: seq<Item>, start: nat, cells: seq<nat>, rs: seq<Request>) {
    && Chain(m, start, cells) && (forall o | o in cells :: o < |m| && m[o].Operation?) && Requests(m, cells) == rs
  }

  lemma OpListKept(m: seq<Item>, m': seq<Item>, start: nat, cells: seq<nat>, rs: seq<Request>)
    requires OpList(m, start, cells, rs) && |m| <= |m'|
    requires forall i | i in cells && i < |m| :: m'[i] == m[i]
    ensures OpList(m', start, cells, rs)
  {
    ChainKept(m, m', start, cells);
    RequestsKept(m, m', cells);
  }

  /** Linking a new cell in front of a list. */
  lemma OpListPush(m: seq<Item>, start: nat, cells: seq<nat>, rs: seq<Request>, o: nat, request: Request)
    requires OpList(m, start, cells, rs) && o < |m| && o != NULL && o !in cells
    ensures OpList(m[o := Item.Operation(request, start)], o, [o] + cells, [request] + rs)
  {
    var m' := m[o := Item.Operation(request, start)];
    OpListKept(m, m', start, cells, rs);
    assert ([o] + cells)[1..] == cells;
  }

  /** The first cell of a list, and the list behind it. */
  lemma OpListPop(m: seq<Item>, start: nat, cells: seq<nat>, rs: seq<Request>)
    requires OpList(m, start, cells, rs)
    ensures start == NULL <==> cells == []
    ensures cells == [] <==> rs == []
    ensures start != NULL ==> start < |m| && start == cells[0] && m[start].Operation? && m[start].request == rs[0]
    ensures start != NULL ==> start !in cells[1..] && OpList(m, m[start].next, cells[1..], rs[1..])
  {
    ChainHead(m, start, cells);
    if cells != [] {
      assert cells[0] in cells && forall o | o in cells[1..] :: o in cells;
    }
  }

  /** What the library knows of its cycles: the cells of their operation lists, the cycle an operation
      belongs to, the cycles that ran out of memory, and what each cycle asks for, newest first while it
      is being filled. */
  datatype Book = Book(lists: map<nat, seq<nat>>, owner: map<nat, nat>, dead: set<nat>, contents: map<nat, seq<Request>>)

  /** A cycle heads the list of its operations, unless it ran out of memory and points to itself. */
  ghost predicate CycleHolds(m: seq<Item>, b: Book, c: nat)
    requires c in b.lists && c in b.contents
  {
    && c < |m| && c != NULL && m[c].Cycle?
    && (if c in b.dead then m[c].first == c && b.lists[c] == [] && b.contents[c] == []
        else OpList(m, m[c].first, b.lists[c], b.contents[c]))
    && forall o | o in b.lists[c] :: o in b.owner && b.owner[o] == c
  }

  ghost predicate Holds(m: seq<Item>, b: Book) {
    && b.lists.Keys == b.contents.Keys && b.dead <= b.lists.Keys && b.lists.Keys !! b.owner.Keys
    && (forall c | c in b.lists :: CycleHolds(m, b, c))
    && (forall o | o in b.owner :: b.owner[o] in b.lists && o in b.lists[b.owner[o]])
  }

  /** The mark is unambiguous: a cycle points to itself exactly if it ran out of memory. */
  lemma DeadMark(m: seq<Item>, b: Book, c: nat)
    requires Holds(m, b) && c in b.lists
    ensures c in b.contents && CycleHolds(m, b, c)
    ensures m[c].first == c <==> c in b.dead
  {
    if c !in b.dead {
      OpListPop(m, m[c].first, b.lists[c], b.contents[c]);
      assert m[c].first != NULL ==> m[c].first in b.owner;
    }
  }

  lemma HoldsKept(m: seq<Item>, m': seq<Item>, b: Book)
    requires Holds(m, b) && |m| <= |m'|
    requires forall i | i in b.lists.Keys + b.owner.Keys && i < |m| :: m'[i] == m[i]
    ensures Holds(m', b)
  {
    hide OpList;
    forall c | c in b.lists ensures CycleHolds(m', b, c) {
      assert CycleHolds(m, b, c);
      if c !in b.dead {
        forall o | o in b.lists[c] && o < |m| ensures m'[o] == m[o] { assert o in b.owner; }
        OpListKept(m, m', m[c].first, b.lists[c], b.contents[c]);
      }
    }
  }

  /** The book without cycle `c`, and with it again under a new list. */
  ghost function Detached(b: Book, c: nat): Book {
    Book(b.lists - {c}, map o | o in b.owner && b.owner[o] != c :: b.owner[o], b.dead - {c}, b.contents - {c})
  }

  ghost function Attached(b: Book, c: nat, cells: seq<nat>, rs: seq<Request>, isDead: bool): Book {
    Book(b.lists[c := cells], map o | o in b.owner.Keys + (set x | x in cells) :: if o in cells then c else b.owner[o],
      if isDead then b.dead + {c} else b.dead, b.contents[c := rs])
  }

  lemma CycleSame(m: seq<Item>, b: Book, b': Book, c: nat)
    requires c in b.lists && c in b.contents && CycleHolds(m, b, c)
    requires c in b'.lists && c in b'.contents && b'.lists[c] == b.lists[c] && b'.contents[c] == b.contents[c]
    requires c in b.dead <==> c in b'.dead
    requires forall o | o in b.lists[c] :: o in b'.owner && b'.owner[o] == c
    ensures CycleHolds(m, b', c)
  {
  }

  lemma CycleOwns(m: seq<Item>, b: Book, c: nat)
    requires c in b.lists && Holds(m, b)
    ensures forall o | o in b.lists[c] :: o in b.owner && b.owner[o] == c
  {
    assert CycleHolds(m, b, c);
  }

  lemma Detach(m: seq<Item>, b: Book, c: nat)
    requires Holds(m, b) && c in b.lists
    ensures Holds(m, Detached(b, c)) && CycleHolds(m, b, c)
    ensures forall o :: o in b.lists[c] <==> o in b.owner && b.owner[o] == c
    ensures c !in b.lists[c] && c !in b.owner && forall o | o in b.lists[c] :: o !in b.lists
  {
    hide OpList, CycleHolds;
    CycleOwns(m, b, c);
    var b' := Detached(b, c);
    forall d | d in b'.lists ensures CycleHolds(m, b', d) {
      CycleOwns(m, b, d);
      CycleSame(m, b, b', d);
    }
    forall o | o in b'.owner ensures b'.owner[o] in b'.lists && o in b'.lists[b'.owner[o]] {
      assert o in b.owner;
    }
  }

  lemma Attach(m: seq<Item>, b: Book, c: nat, cells: seq<nat>, rs: seq<Request>, isDead: bool)
    requires Holds(m, b) && c !in b.lists && c !in b.owner && c < |m| && c != NULL && m[c].Cycle?
    requires c !in cells && forall o | o in cells :: o !in b.owner && o !in b.lists
    requires if isDead then m[c].first == c && cells == [] && rs == [] else OpList(m, m[c].first, cells, rs)
    ensures Holds(m, Attached(b, c, cells, rs, isDead))
  {
    hide OpList, CycleHolds;
    var b' := Attached(b, c, cells, rs, isDead);
    forall d | d in b'.lists ensures CycleHolds(m, b', d) {
      if d == c {
        AttachedHolds(m, b, c, cells, rs, isDead);
      } else {
        CycleOwns(m, b, d);
        CycleSame(m, b, b', d);
      }
    }
    forall o | o in b'.owner ensures b'.owner[o] in b'.lists && o in b'.lists[b'.owner[o]] {
      if o !in cells {
        assert o in b.owner;
      }
    }
  }

  lemma AttachedHolds(m: seq<Item>, b: Book, c: nat, cells: seq<nat>, rs: seq<Request>, isDead: bool)
    requires c !in b.dead && c < |m| && c != NULL && m[c].Cycle?
    requires if isDead then m[c].first == c && cells == [] && rs == [] else OpList(m, m[c].first, cells, rs)
    ensures CycleHolds(m, Attached(b, c, cells, rs, isDead), c)
  {
    hide OpList;
  }

  /** Every cell handed out: cycles, their operations, and everything else. */
  ghost function Handed(b: Book, others: set<nat>): set<nat> {
    b.lists.Keys + b.owner.Keys + others
  }

  lemma HandedOthers(b: Book, others: set<nat>, item: nat)
    ensures Handed(b, others + {item}) == Handed(b, others) + {item}
    ensures item !in b.lists && item !in b.owner ==> Handed(b, others - {item}) == Handed(b, others) - {item}
    ensures others <= Handed(b, others)
  {
  }

  lemma HandedParts(b: Book, others: set<nat>)
    ensures b.lists.Keys <= Handed(b, others) && b.owner.Keys <= Handed(b, others) && others <= Handed(b, others)
  {
  }

  ghost function Elements(cells: seq<nat>): set<nat> {
    set o | o in cells
  }

  lemma HandedDetached(b: Book, others: set<nat>, c: nat)
    requires c in b.lists && forall o :: o in b.lists[c] <==> o in b.owner && b.owner[o] == c
    ensures Handed(Detached(b, c), others + {c} + Elements(b.lists[c])) == Handed(b, others)
  {
    hide Elements;
    assert Elements(b.lists[c]) == (set o | o in b.owner && b.owner[o] == c) by { ElementsAre(b.lists[c]); }
  }

  lemma ElementsAre(cells: seq<nat>)
    ensures forall o :: o in Elements(cells) <==> o in cells
  {
  }

  lemma HandedWithout(b: Book, others: set<nat>, cells: seq<nat>)
    requires others !! b.lists.Keys && others !! b.owner.Keys && Elements(cells) <= others
    ensures Handed(b, others - Elements(cells)) == Handed(b, others) - Elements(cells)
  {
  }

  /** The cycle without operations, whole or out of memory. */
  ghost function Emptied(b: Book, c: nat, isDead: bool): Book {
    Attached(Detached(b, c), c, [], [], isDead)
  }

  /** The cycle with one more operation, held in cell `o`. */
  ghost function Pushed(b: Book, c: nat, o: nat, request: Request): Book
    requires c in b.lists && c in b.contents
  {
    Attached(Detached(b, c), c, [o] + b.lists[c], [request] + b.contents[c], false)
  }

  /** The cycle with its operations in the opposite order; one that ran out of memory stays as it is. */
  ghost function Turned(b: Book, c: nat): Book
    requires c in b.lists && c in b.contents
  {
    if c in b.dead then b else Attached(Detached(b, c), c, Reverse(b.lists[c]), Reverse(b.contents[c]), false)
  }

  ghost function PushedAll(b: Book, c: nat, cells: seq<nat>, rs: seq<Request>): (b': Book)
    requires c in b.lists && c in b.contents && |cells| == |rs|
    ensures c in b'.lists && c in b'.contents
    decreases rs
  {
    if |rs| == 0 then b else PushedAll(Pushed(b, c, cells[0], rs[0]), c, cells[1..], rs[1..])
  }

  /** A cycle that got all the memory it asked for is closed with its operations in the order in which
      they were queued. */
  lemma {:induction false} ClosedOrder(b: Book, c: nat, cells: seq<nat>, rs: seq<Request>)
    requires c in b.lists && c in b.contents && c !in b.dead && |cells| == |rs|
    ensures c !in PushedAll(b, c, cells, rs).dead
    ensures Turned(PushedAll(b, c, cells, rs), c).contents[c] == Reverse(b.contents[c]) + rs
    decreases rs
  {
    if |rs| > 0 {
      var b' := Pushed(b, c, cells[0], rs[0]);
      ClosedOrder(b', c, cells[1..], rs[1..]);
      assert (Reverse(b.contents[c]) + [rs[0]]) + rs[1..] == Reverse(b.contents[c]) + rs;
      assert ([rs[0]] + b.contents[c])[1..] == b.contents[c];
    }
  }

  lemma Unbook(b: Book, c: nat)
    ensures Detached(Emptied(b, c, false), c) == Detached(b, c)
    ensures c !in Detached(b, c).lists
  {
    var d := Detached(b, c);
    var e := Detached(Emptied(b, c, false), c);
    assert d.owner == e.owner && d.lists == e.lists && d.dead == e.dead && d.contents == e.contents;
  }

  lemma {:induction false} ReverseElements(cells: seq<nat>)
    ensures Elements(Reverse(cells)) == Elements(cells)
  {
    if |cells| > 0 {
      ReverseElements(cells[1..]);
      assert cells == [cells[0]] + cells[1..];
      assert Elements(cells) == Elements(cells[1..]) + {cells[0]};
      assert Elements(Reverse(cells)) == Elements(Reverse(cells[1..])) + {cells[0]};
    }
  }

  lemma ReverseStep<T>(s: seq<T>, t: seq<T>)
    requires |s| > 0
    ensures Reverse(s[1..]) + ([s[0]] + t) == Reverse(s) + t
  {
  }

  lemma HasCycle(b: Book, c: nat, isDead: bool)
    ensures c in Emptied(b, c, isDead).lists && Emptied(b, c, isDead).lists[c] == []
  {
  }

  lemma Rebook(b: Book, c: nat)
    ensures Attached(Detached(Emptied(b, c, false), c), c, [], [], true) == Emptied(b, c, true)
  {
    var d := Detached(b, c);
    var e := Detached(Emptied(b, c, false), c);
    assert d.owner == e.owner && d.lists == e.lists && d.dead == e.dead && d.contents == e.contents;
  }

  lemma OpListEmpty(m: seq<Item>)
    ensures OpList(m, NULL, [], [])
  {
  }

  lemma HandedAttached(b: Book, others: set<nat>, c: nat, cells: seq<nat>, rs: seq<Request>, isDead: bool)
    requires {c} + Elements(cells) <= others
    ensures Handed(Attached(b, c, cells, rs, isDead), others - {c} - Elements(cells)) == Handed(b, others)
  {
  }

  /** The linked cells are `First <= i < Last`. */
  function First(fixed: nat): nat {
    if fixed > 0 then 0 else 128
  }

  function Last(fixed: nat, size: nat, setup: bool): nat {
    if fixed > 0 then if setup then fixed else 0 else if size == 65536 then NULL else size
  }

  predicate SizeOk(fixed: nat, size: nat, cells: nat) {
    fixed <= NULL && if fixed > 0 then cells == fixed else PowerSize(size) && cells == (if size == 128 then 0 else size)
  }

  /** What every call keeps, whichever build the pool is. */
  ghost predicate PoolState(fixed: nat, m: seq<Item>, size: nat, setup: bool, head: nat, used: nat, free: seq<nat>, live: set<nat>) {
    && SizeOk(fixed, size, |m|) && FreeOk(m, head, free) && used == |live|
    && Shares(free, live, First(fixed), Last(fixed, size, setup))
  }

  lemma PoolPop(fixed: nat, m: seq<Item>, size: nat, setup: bool, head: nat, used: nat, free: seq<nat>, live: set<nat>)
    requires PoolState(fixed, m, size, setup, head, used, free, live)
    ensures head == NULL <==> free == []
    ensures head != NULL ==> head < |m| && m[head].Free? && head !in live
    ensures head != NULL ==> PoolState(fixed, m, size, setup, m[head].next, used + 1, free[1..], live + {head})
  {
    hide FreeOk, Shares;
    Pop(m, head, free, live, First(fixed), Last(fixed, size, setup));
  }

  lemma PoolPush(fixed: nat, m: seq<Item>, size: nat, setup: bool, head: nat, used: nat, free: seq<nat>, live: set<nat>, item: nat)
    requires PoolState(fixed, m, size, setup, head, used, free, live) && item in live
    ensures item < |m| && used > 0
    ensures PoolState(fixed, m[item := Free(head)], size, setup, item, used - 1, [item] + free, live - {item})
  {
    hide FreeOk, Shares;
    SharesBounds(free, live, First(fixed), Last(fixed, size, setup));
    Push(m, head, free, live, First(fixed), Last(fixed, size, setup), item);
  }

  /** `lo <= i < hi` is a newly linked stretch behind the old cells. */
  lemma PoolFill(fixed: nat, m: seq<Item>, size: nat, setup: bool, m': seq<Item>, size': nat, setup': bool, lo: nat, hi: nat, head: nat, used: nat, live: set<nat>)
    requires PoolState(fixed, m, size, setup, head, used, [], live)
    requires if fixed > 0 then !setup && setup' && lo == 0 && hi == fixed && size' == size
             else size != 65536 && lo == size && hi == size + size && size' == hi
    requires SizeOk(fixed, size', |m'|) && hi <= |m'|
    requires forall i | lo <= i < hi :: m'[i] == Free(if i == hi - 1 then NULL else i + 1)
    ensures PoolState(fixed, m', size', setup', lo, used, Cells(lo, Last(fixed, size', setup')), live)
  {
    hide FreeOk, Shares;
    Fill(m', live, First(fixed), lo, Last(fixed, size', setup'));
  }

  /** Over every run: the free list visits no cell twice and no cell that is handed out, EB_NULL is never
      handed out even when the array has all 65536 cells, free and live cells make up exactly the linked
      ones, and the 16-bit count of used cells is exact. */
  lemma PoolSound(fixed: nat, m: seq<Item>, size: nat, setup: bool, head: nat, used: nat, free: seq<nat>, live: set<nat>)
    requires PoolState(fixed, m, size, setup, head, used, free, live)
    ensures forall j, k | 0 <= j < k < |free| :: free[j] != free[k]
    ensures Elements(free) !! live && NULL !in Elements(free) + live
    ensures forall i: nat :: i in Elements(free) + live <==> First(fixed) <= i && i < Last(fixed, size, setup)
    ensures used == |live| && |free| + |live| == Last(fixed, size, setup) - First(fixed) && used < 65536
    ensures free == [] && fixed == 0 && size == 65536 ==> used == 65407
  {
    forall j, k | 0 <= j < k < |free| ensures free[j] != free[k] {
      ChainAcyclic(m, head, free, j, k);
    }
  }

  lemma PoolWrite(fixed: nat, m: seq<Item>, size: nat, setup: bool, head: nat, used: nat, free: seq<nat>, live: set<nat>, item: nat, x: Item)
    requires PoolState(fixed, m, size, setup, head, used, free, live) && item in live
    ensures item < |m| && item != NULL && PoolState(fixed, m[item := x], size, setup, head, used, free, live)
  {
    SharesBounds(free, live, First(fixed), Last(fixed, size, setup));
    FreeKept(m, m[item := x], head, free);
  }

  class Pool {
    /** Number of cells of the fixed build, 0 for the growing build. */
    const fixed: nat
    var memory: seq<Item>
    var size: nat
    var setup: bool
    var head: nat
    var used: nat

    /** The free list as a value, the cycles, and the other cells that are handed out. */
    ghost var free: seq<nat>
    ghost var book: Book
    ghost var others: set<nat>

    ghost function Live(): set<nat>
      reads this
    {
      Handed(book, others)
    }

    predicate Grown()
      reads this
    {
      if fixed > 0 then setup else size == 65536
    }

    ghost predicate PoolOk()
      reads this
    {
      PoolState(fixed, memory, size, setup, head, used, free, Live())
    }

    ghost predicate Valid()
      reads this
    {
      PoolOk() && Holds(memory, book) && others !! book.lists.Keys && others !! book.owner.Keys
    }

    constructor (fixed: nat)
      requires fixed <= NULL
      ensures Valid() && this.fixed == fixed && Live() == {}
    {
      this.fixed := fixed;
      memory := seq(fixed, _ => Blank);
      size, setup, head, used := 128, false, NULL, 0;
      free, book, others := [], Book(map[], map[], {}, map[]), {};
    }

    /** Links the cells `lo <= i < hi` one behind the other. */
    method LinkCells(lo: nat, hi: nat)
      requires lo < hi <= |memory| && hi <= 65536
      modifies this`memory
      ensures |memory| == old(|memory|) && memory[..lo] == old(memory[..lo]) && memory[hi..] == old(memory[hi..])
      ensures forall i | lo <= i < hi :: memory[i] == Free(if i == hi - 1 then NULL else i + 1)
    {
      var i := lo;
      while i != hi
        invariant lo <= i <= hi && |memory| == old(|memory|)
        invariant memory[..lo] == old(memory[..lo]) && memory[hi..] == old(memory[hi..])
        invariant forall j | lo <= j < i :: memory[j] == Free((j + 1) % 65536)
      {
        memory := memory[i := Free((i + 1) % 65536)];
        i := i + 1;
      }
      memory := memory[hi - 1 := Free(NULL)];
    }

    /** eb_expand_array: called when the free list has run out. */
    method Expand(oom: bool) returns (ok: bool)
      requires PoolOk() && free == []
      modifies `memory, `size, `setup, `head, `free
      ensures PoolOk() && ok == (!old(Grown()) && (fixed > 0 || !oom))
      ensures ok ==> free != []
      ensures !ok ==> unchanged(this)
      ensures Kept(old(memory), memory, Live())
    {
      hide FreeOk, Shares, Chain, Handed;
      if Grown() || (fixed == 0 && oom) {
        return false;
      }
      ghost var m := memory;
      SharesBounds(free, Live(), First(fixed), Last(fixed, size, setup));
      var lo := 0;
      var hi := fixed;
      if fixed == 0 {
        lo, hi := size, size + size;
        memory := memory + seq(hi - |memory|, _ => Blank);
      }
      LinkCells(lo, hi);
      ghost var size', setup' := size, setup;
      setup, size := fixed > 0, if fixed == 0 then hi else size;
      PoolFill(fixed, m, size', setup', memory, size, setup, lo, hi, head, used, Live());
      head := lo;
      free := Cells(lo, Last(fixed, size, setup));
      ok := true;
    }

    /** eb_new_memory_item: a cell nobody holds, or EB_NULL exactly if the free list is empty and the
        array cannot grow. */
    method New(oom: bool) returns (item: nat)
      requires PoolOk()
      modifies `memory, `size, `setup, `head, `used, `free, `others
      ensures PoolOk()
      ensures item == NULL <==> old(free) == [] && (old(Grown()) || (fixed == 0 && oom))
      ensures item == NULL ==> unchanged(this)
      ensures item != NULL ==> item < |memory| && item !in old(Live()) && others == old(others) + {item}
      ensures Kept(old(memory), memory, old(Live()))
    {
      hide PoolState, Handed;
      PoolPop(fixed, memory, size, setup, head, used, free, Live());
      if head == NULL {
        var ok := Expand(oom);
        if !ok {
          return NULL;
        }
        PoolPop(fixed, memory, size, setup, head, used, free, Live());
      }
      item := head;
      HandedOthers(book, others, item);
      head := memory[item].next;
      used := used + 1;
      free, others := free[1..], others + {item};
    }

    /** eb_free_memory_item: the caller no longer refers to the cell. */
    method Release(item: nat)
      requires PoolOk() && item in others && item !in book.lists && item !in book.owner
      modifies `memory, `head, `used, `free, `others
      ensures PoolOk() && others == old(others) - {item} && free == [item] + old(free)
      ensures item < |old(memory)| && memory == old(memory)[item := Free(old(head))]
    {
      hide PoolState, Handed;
      HandedOthers(book, others, item);
      PoolPush(fixed, memory, size, setup, head, used, free, Live(), item);
      memory := memory[item := Free(head)];
      head := item;
      used := used - 1;
      free, others := [item] + free, others - {item};
    }

    /** Frees an operation list. */
    method FreeAll(start: nat, ghost cells: seq<nat>, ghost rs: seq<Request>)
      requires Valid() && OpList(memory, start, cells, rs) && Elements(cells) <= others
      modifies `memory, `head, `used, `free, `others
      ensures Valid() && others == old(others) - Elements(cells) && Live() == old(Live()) - Elements(cells)
      ensures |memory| == |old(memory)| && Kept(old(memory), memory, others)
    {
      hide PoolState, Handed, Holds, OpList;
      var i := start;
      ghost var rest, left := cells, rs;
      OpListPop(memory, i, rest, left);
      while i != NULL
        invariant Valid() && OpList(memory, i, rest, left) && Elements(rest) <= others
        invariant others - Elements(rest) == old(others) - Elements(cells) && (i == NULL <==> rest == [])
        invariant |memory| == |old(memory)| && Kept(old(memory), memory, others)
        decreases |rest|
      {
        OpListPop(memory, i, rest, left);
        var next := memory[i].next;
        ghost var m := memory;
        Release(i);
        OpListKept(m, memory, next, rest[1..], left[1..]);
        HoldsKept(m, memory, book);
        rest, left, i := rest[1..], left[1..], next;
        OpListPop(memory, i, rest, left);
      }
      assert Elements(rest) == {};
      HandedWithout(book, old(others), cells);
    }

    /** Takes a cycle and its operations out of the book, so that its cells may be changed. */
    ghost method Take(c: nat)
      requires Valid() && c in book.lists
      modifies `book, `others
      ensures Valid() && book == Detached(old(book), c) && Live() == old(Live())
      ensures others == old(others) + {c} + Elements(old(book).lists[c]) && c !in old(book).lists[c]
      ensures CycleHolds(memory, old(book), c)
    {
      hide PoolState, Handed, Holds, OpList;
      Detach(memory, book, c);
      HandedDetached(book, others, c);
      others := others + {c} + Elements(book.lists[c]);
      book := Detached(book, c);
    }

    /** Writes the head of a list into a cycle that is not in the book, and enters it. */
    method Enter(c: nat, first: nat, ghost cells: seq<nat>, ghost rs: seq<Request>, ghost isDead: bool)
      requires Valid() && {c} + Elements(cells) <= others && c !in cells
      requires if isDead then first == c && cells == [] && rs == [] else OpList(memory, first, cells, rs)
      modifies `memory, `book, `others
      ensures Valid() && book == Attached(old(book), c, cells, rs, isDead) && Live() == old(Live())
      ensures others == old(others) - {c} - Elements(cells)
      ensures c < |memory| && memory[c] == Cycle(first)
    {
      hide PoolState, Handed, Holds, OpList;
      HandedOthers(book, others, c);
      HandedAttached(book, others, c, cells, rs, isDead);
      PoolWrite(fixed, memory, size, setup, head, used, free, Live(), c, Cycle(first));
      ghost var m := memory;
      memory := memory[c := Cycle(first)];
      HoldsKept(m, memory, book);
      if !isDead {
        OpListKept(m, memory, first, cells, rs);
      }
      Attach(memory, book, c, cells, rs, isDead);
      book, others := Attached(book, c, cells, rs, isDead), others - {c} - Elements(cells);
    }

    /** Whether asking for a cell fails. */
    ghost predicate Exhausted(oom: bool)
      reads this
    {
      free == [] && (Grown() || (fixed == 0 && oom))
    }

    /** eb_cycle_open. A device that is closing takes no cycle. */
    method OpenCycle(passive: bool, oom: bool) returns (c: nat)
      requires Valid()
      modifies this
      ensures Valid() && others == old(others)
      ensures c == NULL <==> old(Exhausted(oom)) || passive
      ensures c == NULL ==> book == old(book)
      ensures c != NULL ==> c !in old(Live()) && Live() == old(Live()) + {c} && book == Attached(old(book), c, [], [], false)
    {
      hide PoolState, Handed, Holds;
      ghost var m := memory;
      HandedParts(book, others);
      c := New(oom);
      if c == NULL {
        return;
      }
      HandedOthers(old(book), old(others), c);
      HoldsKept(m, memory, book);
      if passive {
        ghost var m' := memory;
        Release(c);
        HoldsKept(m', memory, book);
        return NULL;
      }
      OpListEmpty(memory);
      Enter(c, NULL, [], [], false);
    }

    /** eb_cycle_destroy: gives the operations of a cycle back; the cycle itself stays. */
    method Destroy(c: nat)
      requires Valid() && c in book.lists
      modifies this
      ensures Valid() && others == old(others)
      ensures book == Emptied(old(book), c, false)
      ensures Live() == old(Live()) - Elements(old(book).lists[c])
    {
      hide PoolState, Handed, Holds, OpList;
      DeadMark(memory, book, c);
      ghost var cells, rs := book.lists[c], book.contents[c];
      Take(c);
      if memory[c].first != c {
        FreeAll(memory[c].first, cells, rs);
      }
      OpListEmpty(memory);
      Enter(c, NULL, [], [], false);
    }

    /** Memory ran out while filling the cycle: all its operations are given back and it is marked. */
    method Starve(c: nat)
      requires Valid() && c in book.lists
      modifies this
      ensures Valid() && others == old(others) && book == Emptied(old(book), c, true)
      ensures Live() == old(Live()) - Elements(old(book).lists[c])
    {
      hide PoolState, Handed, Holds, OpList, Attached, Detached;
      ghost var b := book;
      Destroy(c);
      HasCycle(b, c, false);
      Take(c);
      Enter(c, c, [], [], true);
      Rebook(b, c);
    }

    /** Writes a fresh cell as the newest operation of a cycle. */
    method PushOp(c: nat, o: nat, request: Request)
      requires Valid() && c in book.lists && c !in book.dead && o in others
      modifies this
      ensures Valid() && others == old(others) - {o} && Live() == old(Live())
      ensures book == Pushed(old(book), c, o, request)
    {
      hide PoolState, Handed, Holds, OpList, Attached, Detached;
      DeadMark(memory, book, c);
      ghost var cells, rs := book.lists[c], book.contents[c];
      HandedParts(book, others);
      Take(c);
      PoolWrite(fixed, memory, size, setup, head, used, free, Live(), o, Item.Operation(request, memory[c].first));
      OpListPush(memory, memory[c].first, cells, rs, o, request);
      ghost var m := memory;
      memory := memory[o := Item.Operation(request, memory[c].first)];
      HoldsKept(m, memory, book);
      Enter(c, o, [o] + cells, [request] + rs, false);
    }

    /** eb_cycle_doop: pushes an operation onto an open cycle. If memory runs out the cycle loses all its
        operations, for good: it is marked by pointing to itself, and from then on refuses more. */
    method Doop(c: nat, request: Request, oom: bool) returns (o: nat)
      requires Valid() && c in book.lists
      modifies this
      ensures Valid() && others == old(others)
      ensures o == NULL <==> old(Exhausted(oom)) || c in old(book).dead
      ensures old(Exhausted(oom)) ==> book == Emptied(old(book), c, true)
      ensures old(Exhausted(oom)) ==> Live() == old(Live()) - Elements(old(book).lists[c])
      ensures !old(Exhausted(oom)) && c in old(book).dead ==> book == old(book)
      ensures o != NULL ==> o !in old(Live()) && Live() == old(Live()) + {o} && book == Pushed(old(book), c, o, request)
    {
      hide PoolState, Handed, Holds, OpList;
      ghost var m, b := memory, book;
      HandedParts(book, others);
      o := New(oom);
      if o == NULL {
        Starve(c);
        return;
      }
      HandedOthers(b, old(others), o);
      HoldsKept(m, memory, book);
      DeadMark(memory, book, c);
      if memory[c].first == c {
        m := memory;
        Release(o);
        HoldsKept(m, memory, book);
        return NULL;
      }
      PushOp(c, o, request);
    }

    /** Reverses an operation list in place. */
    method ReverseList(start: nat, ghost cells: seq<nat>, ghost rs: seq<Request>) returns (first: nat)
      requires Valid() && OpList(memory, start, cells, rs) && Elements(cells) <= others
      modifies `memory
      ensures Valid() && OpList(memory, first, Reverse(cells), Reverse(rs))
      ensures |memory| == |old(memory)| && forall i | 0 <= i < |memory| && i !in cells :: memory[i] == old(memory[i])
    {
      hide PoolState, Handed, Holds, OpList;
      var prev, i := NULL, start;
      ghost var rest, left, cells', rs' := cells, rs, [], [];
      HandedParts(book, others);
      OpListEmpty(memory);
      OpListPop(memory, i, rest, left);
      while i != NULL
        invariant Valid() && OpList(memory, i, rest, left) && OpList(memory, prev, cells', rs')
        invariant Elements(rest) <= others && (i == NULL <==> rest == []) && (rest == [] <==> left == [])
        invariant forall o | o in rest :: o in cells && o !in cells'
        invariant Reverse(rest) + cells' == Reverse(cells) && Reverse(left) + rs' == Reverse(rs)
        invariant |memory| == |old(memory)| && forall j | 0 <= j < |memory| && j !in cells :: memory[j] == old(memory[j])
        decreases |rest|
      {
        OpListPop(memory, i, rest, left);
        var next := memory[i].next;
        ghost var m := memory;
        PoolWrite(fixed, memory, size, setup, head, used, free, Live(), i, memory[i].(next := prev));
        OpListPush(m, prev, cells', rs', i, memory[i].request);
        memory := memory[i := memory[i].(next := prev)];
        OpListKept(m, memory, next, rest[1..], left[1..]);
        HoldsKept(m, memory, book);
        ReverseStep(rest, cells');
        ReverseStep(left, rs');
        cells', rs' := [i] + cells', [left[0]] + rs';
        rest, left, prev, i := rest[1..], left[1..], i, next;
        OpListPop(memory, i, rest, left);
      }
      first := prev;
      assert Reverse(rest) + cells' == cells' && Reverse(left) + rs' == rs';
    }

    /** eb_raw_cycle_close: a cycle that did not run out of memory gets its operations in the order they
        were asked for. */
    method RawClose(c: nat)
      requires Valid() && c in book.lists
      modifies this
      ensures Valid() && others == old(others) && Live() == old(Live())
      ensures book == Turned(old(book), c)
    {
      hide PoolState, Handed, Holds, OpList, Attached, Detached;
      DeadMark(memory, book, c);
      HandedParts(book, others);
      if memory[c].first != c {
        ghost var b, cells, rs := book, book.lists[c], book.contents[c];
        Take(c);
        var first := ReverseList(memory[c].first, cells, rs);
        ReverseElements(cells);
        Enter(c, first, Reverse(cells), Reverse(rs), false);
      }
    }

    /** eb_cycle_abort: everything the cycle held is given back. */
    method Abort(c: nat)
      requires Valid() && c in book.lists
      modifies this
      ensures Valid() && others == old(others)
      ensures Live() == old(Live()) - {c} - Elements(old(book).lists[c])
      ensures book == Detached(old(book), c)
    {
      hide PoolState, Handed, Holds, OpList, Attached, Detached;
      ghost var b := book;
      HandedParts(book, others);
      Destroy(c);
      HasCycle(b, c, false);
      Take(c);
      Unbook(b, c);
      HandedOthers(book, others, c);
      ghost var m := memory;
      Release(c);
      HoldsKept(m, memory, book);
    }
  }
}
