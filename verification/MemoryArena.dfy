/** The page arena: chunks are cut from pages by moving each page's cursor. */
module MemoryArena {
  import opened Common

  datatype Permission = NoAccess | Read | ReadWrite | ReadExecute | ReadWriteExecute

  datatype Chunk = Chunk(address: int, length: int)

  datatype Page = Page(address: int, length: int, cursor: int, permission: Permission, chunks: seq<Chunk>)

  /** A call of `AllocateChunk`; `supply` is the page that the operating system gives if it is asked for one. */
  datatype Request = Request(size: int, permission: Permission, supply: Option<int>)

  // ----- one call -----

  predicate HasRoom(p: Page, q: Request) {
    p.permission == q.permission && p.cursor + q.size < p.address + p.length
  }

  /** The first page with room, or the number of pages. */
  function FirstRoom(pages: seq<Page>, q: Request): (i: nat)
    ensures i <= |pages|
    ensures i < |pages| ==> HasRoom(pages[i], q)
    ensures forall j :: 0 <= j < i ==> !HasRoom(pages[j], q)
  {
    if pages == [] || HasRoom(pages[0], q) then 0
    else
      var i := FirstRoom(pages[1..], q);
      assert forall j :: 0 < j < i + 1 ==> pages[j] == pages[1..][j - 1];
      i + 1
  }

  function Cut(p: Page, size: int): Page {
    p.(cursor := p.cursor + size, chunks := p.chunks + [Chunk(p.cursor, size)])
  }

  function NewPage(address: int, pageSize: int, permission: Permission): Page {
    Page(address, pageSize, address, permission, [])
  }

  /** The pages among which the chunk is cut: with a new one at the end if none has room. */
  function Prepared(pages: seq<Page>, q: Request, pageSize: int): seq<Page> {
    if FirstRoom(pages, q) == |pages| && q.supply.Some? then pages + [NewPage(q.supply.value, pageSize, q.permission)]
    else pages
  }

  function Allocate(pages: seq<Page>, q: Request, pageSize: int): (seq<Page>, Option<Chunk>) {
    var i, prepared := FirstRoom(pages, q), Prepared(pages, q, pageSize);
    if i == |prepared| then (pages, None)
    else (prepared[i := Cut(prepared[i], q.size)], Some(Chunk(prepared[i].cursor, q.size)))
  }

  /** A page of the permission with strictly more room than the size, if there is one, is used: the chunk is cut at the
      cursor of the first such page, and no page is added. */
  lemma {:induction false} PageReused(pages: seq<Page>, q: Request, pageSize: int, i: nat)
    requires i < |pages| && pages[i].permission == q.permission
    requires pages[i].cursor + q.size < pages[i].address + pages[i].length
    requires forall j :: 0 <= j < i ==>
               pages[j].permission != q.permission || pages[j].cursor + q.size >= pages[j].address + pages[j].length
    ensures var (after, chunk) := Allocate(pages, q, pageSize);
            && chunk == Some(Chunk(pages[i].cursor, q.size)) && |after| == |pages|
            && (forall j :: 0 <= j < |pages| && j != i ==> after[j] == pages[j])
            && after[i].cursor == pages[i].cursor + q.size && after[i].chunks == pages[i].chunks + [chunk.value]
            && after[i].address == pages[i].address && after[i].length == pages[i].length
            && after[i].permission == pages[i].permission
  {}

  /** If there is none, the operating system is asked, and the chunk is cut at the start of the page that it gives,
      which comes last; or the call fails. */
  lemma {:induction false} PageAdded(pages: seq<Page>, q: Request, pageSize: int)
    requires forall j :: 0 <= j < |pages| ==>
               pages[j].permission != q.permission || pages[j].cursor + q.size >= pages[j].address + pages[j].length
    ensures var (after, chunk) := Allocate(pages, q, pageSize);
            match q.supply
            case None => after == pages && chunk == None
            case Some(a) =>
              && chunk == Some(Chunk(a, q.size))
              && after == pages + [Page(a, pageSize, a + q.size, q.permission, [chunk.value])]
  {
    if q.supply.Some? {
      var given := NewPage(q.supply.value, pageSize, q.permission);
      assert (pages + [given])[|pages| := Cut(given, q.size)] == pages + [Cut(given, q.size)];
      assert [] + [Chunk(q.supply.value, q.size)] == [Chunk(q.supply.value, q.size)];
    }
  }

  class Arena {
    const pageSize: int
    var pages: seq<Page>

    constructor (pageSize: int)
      ensures this.pageSize == pageSize && pages == []
    {
      this.pageSize := pageSize;
      pages := [];
    }

    method AllocateChunk(q: Request) returns (chunk: Option<Chunk>)
      modifies this
      ensures (pages, chunk) == Allocate(old(pages), q, pageSize)
    {
      var i := 0;
      while i < |pages| && !HasRoom(pages[i], q)
        invariant 0 <= i <= FirstRoom(pages, q)
      {
        i := i + 1;
      }
      if i == |pages| {
        if q.supply.None? { return None; }
        pages := pages + [NewPage(q.supply.value, pageSize, q.permission)];
      }
      chunk := Some(Chunk(pages[i].cursor, q.size));
      pages := pages[i := Cut(pages[i], q.size)];
    }
  }

  // ----- what the arena keeps -----

  /** Chunks laid end to end from `start`, ending at `end`. */
  ghost predicate Laid(chunks: seq<Chunk>, start: int, end: int) {
    if chunks == [] then start == end
    else
      var last := chunks[|chunks| - 1];
      last.length >= 0 && last.address + last.length == end && Laid(chunks[..|chunks| - 1], start, last.address)
  }

  /** The page's chunks tile it up to the cursor, which lies in the page. */
  ghost predicate Tiled(p: Page) {
    Laid(p.chunks, p.address, p.cursor) && p.cursor <= p.address + p.length
  }

  /** No byte belongs to both stretches. */
  predicate Apart(a: int, aLength: int, b: int, bLength: int) { a + aLength <= b || b + bLength <= a }

  predicate PagesApart(p: Page, q: Page) { Apart(p.address, p.length, q.address, q.length) }

  predicate ChunksApart(c: Chunk, d: Chunk) { Apart(c.address, c.length, d.address, d.length) }

  ghost predicate Tidy(pages: seq<Page>) {
    && (forall i :: 0 <= i < |pages| ==> Tiled(pages[i]))
    && (forall i, j :: 0 <= i < j < |pages| ==> PagesApart(pages[i], pages[j]))
  }

  /** The operating system gives a page that overlaps none of the arena's. */
  ghost predicate FreshPage(pages: seq<Page>, q: Request, pageSize: int) {
    q.supply.Some? ==> forall i :: 0 <= i < |pages| ==>
      PagesApart(pages[i], NewPage(q.supply.value, pageSize, q.permission))
  }

  /** The size that the call can serve: an old page with room serves any, a new one up to a page. */
  predicate Servable(pages: seq<Page>, q: Request, pageSize: int) {
    FirstRoom(pages, q) < |pages| || q.size <= pageSize
  }

  lemma {:induction false} LaidBounds(chunks: seq<Chunk>, start: int, end: int)
    requires Laid(chunks, start, end)
    ensures start <= end
    ensures forall c :: c in chunks ==> start <= c.address && 0 <= c.length && c.address + c.length <= end
  {
    if chunks != [] {
      LaidBounds(chunks[..|chunks| - 1], start, chunks[|chunks| - 1].address);
    }
  }

  lemma {:induction false} CutTiles(p: Page, size: int)
    requires Tiled(p)
    ensures Tiled(Cut(p, size)) <==> 0 <= size <= p.address + p.length - p.cursor
  {
    var c := Cut(p, size).chunks;
    assert c[..|c| - 1] == p.chunks;
  }

  lemma {:induction false} PreparedIsTidy(pages: seq<Page>, q: Request, pageSize: int)
    requires Tidy(pages) && FreshPage(pages, q, pageSize) && pageSize >= 0
    ensures Tidy(Prepared(pages, q, pageSize))
  {
    hide FirstRoom;
  }

  lemma {:induction false} CutKeepsTidy(pages: seq<Page>, i: nat, size: int)
    requires Tidy(pages) && i < |pages|
    ensures Tidy(pages[i := Cut(pages[i], size)])
            <==> 0 <= size <= pages[i].address + pages[i].length - pages[i].cursor
  {
    CutTiles(pages[i], size);
    hide Tiled;
    var after := pages[i := Cut(pages[i], size)];
    assert after[i] == Cut(pages[i], size);
    if Tiled(after[i]) {
      forall j, k | 0 <= j < k < |after| ensures PagesApart(after[j], after[k]) {
        assert PagesApart(pages[j], pages[k]);
      }
    }
  }

  /** The call can serve nothing: no old page has room and the operating system gives none. */
  predicate Refused(pages: seq<Page>, q: Request) { FirstRoom(pages, q) == |pages| && q.supply.None? }

  /** A call keeps the arena tidy if and only if it is refused, or its size is not negative and an old page has room for
      it or it is no more than a page. */
  lemma {:induction false} AllocateKeepsTidy(pages: seq<Page>, q: Request, pageSize: int)
    requires Tidy(pages) && FreshPage(pages, q, pageSize) && pageSize >= 0
    ensures Tidy(Allocate(pages, q, pageSize).0) <==>
              Refused(pages, q) || (0 <= q.size && Servable(pages, q, pageSize))
  {
    var i, prepared := FirstRoom(pages, q), Prepared(pages, q, pageSize);
    PreparedIsTidy(pages, q, pageSize);
    hide Tidy, FirstRoom;
    if i < |prepared| { CutKeepsTidy(prepared, i, q.size); }
  }

  lemma {:induction false} FailsWhenRefused(pages: seq<Page>, q: Request, pageSize: int)
    ensures Allocate(pages, q, pageSize).1.None? <==> Refused(pages, q)
    ensures Refused(pages, q) ==> Allocate(pages, q, pageSize).0 == pages
  {}

  /** A chunk that some page records, of the permission asked for, and that lies inside that page. */
  ghost predicate Held(pages: seq<Page>, c: Chunk, permission: Permission) {
    exists i :: 0 <= i < |pages| && HeldAt(pages[i], c, permission)
  }

  ghost predicate HeldAt(p: Page, c: Chunk, permission: Permission) {
    && p.permission == permission && c in p.chunks
    && p.address <= c.address && c.address + c.length <= p.address + p.length
  }

  lemma {:induction false} PagesApartBothWays(pages: seq<Page>, i: nat, j: nat)
    requires Tidy(pages) && i < |pages| && j < |pages| && i != j
    ensures Apart(pages[i].address, pages[i].length, pages[j].address, pages[j].length)
  {
    assert PagesApart(pages[i], pages[j]) || PagesApart(pages[j], pages[i]);
  }

  /** The chunk handed out is held, and overlaps none that was held before; those stay held. */
  lemma {:induction false} AllocatedIsNew(pages: seq<Page>, q: Request, pageSize: int)
    requires Tidy(pages) && FreshPage(pages, q, pageSize) && Allocate(pages, q, pageSize).1.Some?
    requires 0 <= q.size && Servable(pages, q, pageSize) && pageSize >= 0
    ensures var (after, chunk) := Allocate(pages, q, pageSize);
            && Held(after, chunk.value, q.permission)
            && forall c, m :: Held(pages, c, m) ==> Held(after, c, m) && ChunksApart(c, chunk.value)
  {
    var i, prepared := FirstRoom(pages, q), Prepared(pages, q, pageSize);
    var (after, chunk) := Allocate(pages, q, pageSize);
    PreparedIsTidy(pages, q, pageSize);
    AllocateKeepsTidy(pages, q, pageSize);
    hide FirstRoom, Laid, PagesApart;
    assert Tiled(prepared[i]) && Tiled(after[i]);
    LaidBounds(prepared[i].chunks, prepared[i].address, prepared[i].cursor);
    assert HeldAt(after[i], chunk.value, q.permission);
    forall c, m | Held(pages, c, m) ensures Held(after, c, m) && ChunksApart(c, chunk.value) {
      var j :| 0 <= j < |pages| && HeldAt(pages[j], c, m);
      assert prepared[j] == pages[j];
      assert HeldAt(after[j], c, m);
      if i != j {
        PagesApartBothWays(prepared, i, j);
      }
    }
  }

  // ----- all the chunks -----

  function AllChunks(pages: seq<Page>): multiset<Chunk> {
    if pages == [] then multiset{} else multiset(pages[0].chunks) + AllChunks(pages[1..])
  }

  lemma {:induction false} AllChunksUpdated(pages: seq<Page>, i: nat, size: int)
    requires i < |pages|
    ensures AllChunks(pages[i := Cut(pages[i], size)]) == AllChunks(pages) + multiset{Chunk(pages[i].cursor, size)}
  {
    var after := pages[i := Cut(pages[i], size)];
    if i == 0 {
      assert after[1..] == pages[1..];
    } else {
      AllChunksUpdated(pages[1..], i - 1, size);
      assert after[1..] == pages[1..][i - 1 := Cut(pages[i], size)];
    }
  }

  lemma {:induction false} AllChunksGrown(pages: seq<Page>, p: Page)
    requires p.chunks == []
    ensures AllChunks(pages + [p]) == AllChunks(pages)
  {
    if pages == [] {
      assert AllChunks([p]) == multiset(p.chunks) + AllChunks([p][1..]);
    } else {
      AllChunksGrown(pages[1..], p);
      assert (pages + [p])[1..] == pages[1..] + [p];
    }
  }

  lemma {:induction false} AllocateRecords(pages: seq<Page>, q: Request, pageSize: int)
    ensures var (after, chunk) := Allocate(pages, q, pageSize);
            AllChunks(after) == AllChunks(pages) + if chunk.Some? then multiset{chunk.value} else multiset{}
  {
    var i, prepared := FirstRoom(pages, q), Prepared(pages, q, pageSize);
    if i == |pages| && q.supply.Some? { AllChunksGrown(pages, NewPage(q.supply.value, pageSize, q.permission)); }
    if i < |prepared| { AllChunksUpdated(prepared, i, q.size); }
  }

  // ----- every run -----

  /** The pages after the calls, and what each call returned. */
  function Run(calls: seq<Request>, pageSize: int): (r: (seq<Page>, seq<Option<Chunk>>))
    ensures |r.1| == |calls|
  {
    if calls == [] then ([], [])
    else
      var n := |calls| - 1;
      var (pages, given) := Run(calls[..n], pageSize);
      var (after, chunk) := Allocate(pages, calls[n], pageSize);
      (after, given + [chunk])
  }

  /** In every call the size is from nothing to a page, and a page from the operating system is new. */
  ghost predicate Proper(calls: seq<Request>, pageSize: int) {
    calls != [] ==>
      var n := |calls| - 1;
      && Proper(calls[..n], pageSize)
      && 0 <= calls[n].size <= pageSize
      && FreshPage(Run(calls[..n], pageSize).0, calls[n], pageSize)
  }

  function Given(given: seq<Option<Chunk>>): multiset<Chunk> {
    if given == [] then multiset{}
    else
      var n := |given| - 1;
      Given(given[..n]) + if given[n].Some? then multiset{given[n].value} else multiset{}
  }

  ghost predicate AllHeld(pages: seq<Page>, given: seq<Option<Chunk>>, calls: seq<Request>)
    requires |given| == |calls|
  {
    forall i :: 0 <= i < |given| && given[i].Some? ==> Held(pages, given[i].value, calls[i].permission)
  }

  ghost predicate AllApart(given: seq<Option<Chunk>>) {
    forall i, j :: 0 <= i < j < |given| && given[i].Some? && given[j].Some? ==>
      ChunksApart(given[i].value, given[j].value)
  }

  lemma {:induction false} OneMore(
      pages: seq<Page>, after: seq<Page>, given: seq<Option<Chunk>>, chunk: Option<Chunk>, calls: seq<Request>)
    requires |calls| == |given| + 1 && AllHeld(pages, given, calls[..|given|]) && AllApart(given)
    requires forall c, m :: Held(pages, c, m) ==> Held(after, c, m) && (chunk.Some? ==> ChunksApart(c, chunk.value))
    requires chunk.Some? ==> Held(after, chunk.value, calls[|given|].permission)
    ensures AllHeld(after, given + [chunk], calls) && AllApart(given + [chunk])
  {
    hide Held, ChunksApart;
  }

  lemma {:induction false} TidyFromNothing()
    ensures Tidy([]) && AllChunks([]) == multiset{}
  {}

  /** Each page is tiled by its chunks up to its cursor and no two pages overlap; each chunk handed out lies in a
      page of the permission asked for; no two chunks overlap; and the pages record exactly the chunks handed out. */
  ghost predicate InOrder(pages: seq<Page>, given: seq<Option<Chunk>>, calls: seq<Request>) {
    && |given| == |calls| && Tidy(pages) && AllHeld(pages, given, calls) && AllApart(given)
    && AllChunks(pages) == Given(given)
  }

  lemma {:induction false} GivenMore(given: seq<Option<Chunk>>, chunk: Option<Chunk>)
    ensures Given(given + [chunk]) == Given(given) + if chunk.Some? then multiset{chunk.value} else multiset{}
  {
    assert (given + [chunk])[..|given|] == given;
  }

  lemma {:induction false} StepStaysInOrder(
      pages: seq<Page>, given: seq<Option<Chunk>>, calls: seq<Request>, pageSize: int)
    requires calls != [] && InOrder(pages, given, calls[..|calls| - 1])
    requires 0 <= calls[|calls| - 1].size <= pageSize && FreshPage(pages, calls[|calls| - 1], pageSize)
    ensures var (after, chunk) := Allocate(pages, calls[|calls| - 1], pageSize);
            InOrder(after, given + [chunk], calls)
  {
    hide Tidy, Held, ChunksApart, AllChunks, Allocate, FirstRoom, FreshPage, AllHeld, AllApart, Refused, Given;
    var q := calls[|calls| - 1];
    var (after, chunk) := Allocate(pages, q, pageSize);
    assert Servable(pages, q, pageSize);
    hide Servable;
    AllocateKeepsTidy(pages, q, pageSize);
    AllocateRecords(pages, q, pageSize);
    GivenMore(given, chunk);
    if chunk.Some? { AllocatedIsNew(pages, q, pageSize); } else { FailsWhenRefused(pages, q, pageSize); }
    OneMore(pages, after, given, chunk, calls);
  }

  /** After every run all is in order. */
  lemma {:induction false} RunStaysTidy(calls: seq<Request>, pageSize: int)
    requires pageSize >= 0 && Proper(calls, pageSize)
    ensures InOrder(Run(calls, pageSize).0, Run(calls, pageSize).1, calls)
    decreases |calls|
  {
    if calls == [] {
      TidyFromNothing();
    } else {
      hide InOrder, Allocate, FreshPage;
      var n := |calls| - 1;
      RunStaysTidy(calls[..n], pageSize);
      var (pages, given) := Run(calls[..n], pageSize);
      StepStaysInOrder(pages, given, calls, pageSize);
    }
  }

  /** A chunk larger than a page reaches past the end of the page made for it. */
  lemma {:induction false} LargeChunkExample()
    ensures var q := Request(4097, ReadExecute, Some(0x10000));
            FreshPage([], q, 4096) && Allocate([], q, 4096).1 == Some(Chunk(0x10000, 4097))
            && !Tidy(Allocate([], q, 4096).0)
  {
    AllocateKeepsTidy([], Request(4097, ReadExecute, Some(0x10000)), 4096);
  }
}
