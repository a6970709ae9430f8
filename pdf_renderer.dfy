/** `PDFRenderer`: renders a PDF file page by page by driving the native
    engine. It owns one file (the caller's bytes and where they were staged
    in the linear memory), one document and one record per page, and keeps
    the engine handles and memory blocks behind them alive exactly as long
    as the records say. */
module PdfRenderer {
  import opened Memory
  import opened Pdfium

  const BytesPerPixel: nat := 4
  const MemoryNullptr: nat := 0
  const ColorWhite: int := 0xffff_ffff

  /** The flags every render uses: reverse byte order, LCD text, annotations. */
  const RenderFlag: bv32 := RenderReverseByteOrder | RenderLcdText | RenderAnnot

  datatype Option<T> = None | Some(value: T)

  /** The caller's bytes and the address of their staged copy (0 if none). */
  datatype PdfFile = PdfFile(fileSize: nat, byteArray: seq<byte>, allocatedMemoryPtr: nat)

  datatype PdfDocument = PdfDocument(isOpen: bool, pageCount: nat, instancePtr: nat)

  /** One page record. `width` and `height` hold the size the page was last
      prepared at; `renderWidth` and `renderHeight` are never written. */
  datatype Page = Page(
    isOpen: bool,
    rendered: bool,
    width: nat,
    height: nat,
    renderWidth: nat,
    renderHeight: nat,
    bitmapBufferSize: nat,
    instancePtr: nat,
    bitmapBufferPtr: nat,
    bitmapPtr: nat)

  /** The bytes of a BGRA bitmap of `width` x `height`. */
  function BufferSize(width: nat, height: nat): nat
  {
    width * height * BytesPerPixel
  }

  /** `DEFAULT_PAGE_INSTASNCE`: closed, never rendered, size 0, no handles. */
  const DefaultPage: Page := Page(false, false, 0, 0, 0, 0, MemoryNullptr, MemoryNullptr, MemoryNullptr, MemoryNullptr)

  /** A record that holds no page handle, no bitmap and no buffer. */
  predicate Released(p: Page)
  {
    p.instancePtr == MemoryNullptr && p.bitmapBufferPtr == MemoryNullptr && p.bitmapPtr == MemoryNullptr
  }

  /** The records `openDocument` creates for a document of `n` pages. */
  function FreshPages(n: nat): (r: seq<Page>)
    ensures |r| == n
    ensures forall i :: 0 <= i < n ==> r[i] == DefaultPage && !r[i].isOpen && Released(r[i])
    ensures forall i :: 0 <= i < n ==>
      && !r[i].rendered && r[i].width == 0 && r[i].height == 0
      && r[i].renderWidth == 0 && r[i].renderHeight == 0 && r[i].bitmapBufferSize == 0
  {
    seq(n, _ => DefaultPage)
  }

  /** What `closePage` leaves of an open record: closed and released; the
      size, buffer length and rendered flag stay as they were. */
  function ClosedPage(p: Page): (r: Page)
    ensures !r.isOpen && Released(r)
    ensures r.rendered == p.rendered && r.width == p.width && r.height == p.height
    ensures r.bitmapBufferSize == p.bitmapBufferSize
    ensures r.renderWidth == p.renderWidth && r.renderHeight == p.renderHeight
  {
    p.(isOpen := false, instancePtr := MemoryNullptr, bitmapBufferPtr := MemoryNullptr, bitmapPtr := MemoryNullptr)
  }

  /** Closing a record that was just opened gives back the record as it was. */
  lemma OpenThenCloseRestores(p: Page, handle: nat)
    requires !p.isOpen && Released(p)
    ensures ClosedPage(p.(isOpen := true, instancePtr := handle)) == p
  {
  }

  datatype HandleKind = PageHandle | BitmapHandle | BufferHandle

  function HandleOf(p: Page, k: HandleKind): nat
  {
    match k
    case PageHandle => p.instancePtr
    case BitmapHandle => p.bitmapPtr
    case BufferHandle => p.bitmapBufferPtr
  }

  /** The non-null handles of kind `k` that the records hold. */
  ghost function Owned(ps: seq<Page>, k: HandleKind): set<nat>
  {
    set i | 0 <= i < |ps| && HandleOf(ps[i], k) != 0 :: HandleOf(ps[i], k)
  }

  /** Records of different pages never share a handle or a buffer. */
  ghost predicate DistinctHandles(ps: seq<Page>)
  {
    forall i, j, k :: 0 <= i < |ps| && 0 <= j < |ps| && i != j && HandleOf(ps[i], k) != 0 ==>
      HandleOf(ps[i], k) != HandleOf(ps[j], k)
  }

  /** The handles of one more record. */
  lemma OwnedPrefix(ps: seq<Page>, j: nat, k: HandleKind)
    requires j < |ps|
    ensures Owned(ps[..j + 1], k) == Owned(ps[..j], k) + (if HandleOf(ps[j], k) != 0 then {HandleOf(ps[j], k)} else {})
  {
    var a, b := ps[..j + 1], ps[..j];
    forall h | h in Owned(a, k) ensures h in Owned(b, k) || (HandleOf(ps[j], k) != 0 && h == HandleOf(ps[j], k)) {
      var i :| 0 <= i < |a| && HandleOf(a[i], k) != 0 && h == HandleOf(a[i], k);
      if i < j {
        assert HandleOf(b[i], k) == h;
      }
    }
    forall h | h in Owned(b, k) ensures h in Owned(a, k) {
      var i :| 0 <= i < |b| && HandleOf(b[i], k) != 0 && h == HandleOf(b[i], k);
      assert HandleOf(a[i], k) == h;
    }
    if HandleOf(ps[j], k) != 0 {
      assert HandleOf(a[j], k) == HandleOf(ps[j], k);
    }
  }

  /** Removing the null handle from a map that has no null key changes
      nothing. */
  lemma WithoutNull<V>(m: map<nat, V>)
    requires 0 !in m
    ensures m - {0} == m
  {
    assert forall k :: k in m - {0} <==> k in m;
  }

  /** `next` is `current` without the handle `h`; when `h` is null,
      `next` is `current`. */
  ghost predicate Removed<V>(current: map<nat, V>, h: nat, next: map<nat, V>)
  {
    next == current - {h} || (h == 0 && next == current)
  }

  /** Removing the handles `s` from `m` and then the handle `h` (nothing,
      when `h` is null) removes `s` and `h` together. */
  lemma RemoveOneMore<V>(m: map<nat, V>, s: set<nat>, h: nat, current: map<nat, V>, next: map<nat, V>)
    requires 0 !in m
    requires current == m - s
    requires Removed(current, h, next)
    ensures next == m - (s + (if h != 0 then {h} else {}))
  {
    var t := s + (if h != 0 then {h} else {});
    assert forall k :: k in next <==> k in m && k !in t;
  }

  /** What one record promises about the engine and the memory, given the
      current document handle, the engine's live pages and bitmaps, the
      arena's live blocks and the staged file's address. */
  ghost predicate RecordValid(p: Page, doc: nat, livePages: map<nat, nat>, liveBitmaps: map<nat, BitmapInfo>,
                              blocks: map<nat, nat>, staged: nat)
  {
    && (!p.isOpen ==> Released(p))
    && (p.instancePtr != 0 ==> p.instancePtr in livePages && livePages[p.instancePtr] == doc)
    && (p.bitmapPtr != 0 ==>
          && p.bitmapBufferPtr != 0
          && p.bitmapPtr in liveBitmaps
          && liveBitmaps[p.bitmapPtr] == BitmapInfo(p.width, p.height, BitmapFormatBGRA, p.bitmapBufferPtr, p.width * BytesPerPixel))
    && (p.bitmapBufferPtr != 0 ==>
          && p.bitmapBufferPtr in blocks
          && p.bitmapBufferPtr != staged
          && p.bitmapBufferSize == BufferSize(p.width, p.height)
          && blocks[p.bitmapBufferPtr] == p.bitmapBufferSize)
  }

  ghost predicate RecordsValid(ps: seq<Page>, doc: nat, livePages: map<nat, nat>, liveBitmaps: map<nat, BitmapInfo>,
                               blocks: map<nat, nat>, staged: nat)
  {
    forall i :: 0 <= i < |ps| ==> RecordValid(ps[i], doc, livePages, liveBitmaps, blocks, staged)
  }

  /** Every live page of the document `doc` is held by some record. */
  ghost predicate PagesOfDocumentOwned(ps: seq<Page>, doc: nat, livePages: map<nat, nat>)
  {
    forall h :: h in livePages && livePages[h] == doc ==> h in Owned(ps, PageHandle)
  }

  /** Fresh records hold nothing, so they are valid for any maps, and they
      own every live page of a document that has none. */
  lemma FreshPagesValid(n: nat, doc: nat, livePages: map<nat, nat>, liveBitmaps: map<nat, BitmapInfo>,
                        blocks: map<nat, nat>, staged: nat)
    ensures RecordsValid(FreshPages(n), doc, livePages, liveBitmaps, blocks, staged)
    ensures DistinctHandles(FreshPages(n))
    ensures (forall h :: h in livePages ==> livePages[h] != doc) ==> PagesOfDocumentOwned(FreshPages(n), doc, livePages)
  {
  }

  /** Replacing record `i` by `q` keeps every live page of `doc` owned, as
      long as each such page is `q`'s own handle or was live before and was
      not record `i`'s handle. */
  lemma PagesOwnedAfterUpdate(ps: seq<Page>, i: nat, q: Page, doc: nat, before: map<nat, nat>, after: map<nat, nat>)
    requires i < |ps|
    requires PagesOfDocumentOwned(ps, doc, before)
    requires 0 !in after
    requires forall h :: h in after && after[h] == doc ==>
      h == q.instancePtr || (h in before && before[h] == doc && h != ps[i].instancePtr)
    ensures PagesOfDocumentOwned(ps[i := q], doc, after)
  {
    var qs := ps[i := q];
    forall h | h in after && after[h] == doc ensures h in Owned(qs, PageHandle) {
      if h == q.instancePtr {
        assert HandleOf(qs[i], PageHandle) == h;
      } else {
        var j :| 0 <= j < |ps| && HandleOf(ps[j], PageHandle) != 0 && h == HandleOf(ps[j], PageHandle);
        assert HandleOf(qs[j], PageHandle) == h;
      }
    }
  }

  /** Replacing record `i` by `q` keeps every other record valid when the
      maps lose at most record `i`'s own handles. */
  lemma RecordsValidAfterUpdate(ps: seq<Page>, i: nat, q: Page, doc: nat, staged: nat,
                                livePages: map<nat, nat>, liveBitmaps: map<nat, BitmapInfo>, blocks: map<nat, nat>,
                                livePages': map<nat, nat>, liveBitmaps': map<nat, BitmapInfo>, blocks': map<nat, nat>)
    requires i < |ps| && DistinctHandles(ps)
    requires RecordsValid(ps, doc, livePages, liveBitmaps, blocks, staged)
    requires RecordValid(q, doc, livePages', liveBitmaps', blocks', staged)
    requires forall h :: h in livePages && h != ps[i].instancePtr ==> h in livePages' && livePages'[h] == livePages[h]
    requires forall h :: h in liveBitmaps && h != ps[i].bitmapPtr ==> h in liveBitmaps' && liveBitmaps'[h] == liveBitmaps[h]
    requires forall h :: h in blocks && h != ps[i].bitmapBufferPtr ==> h in blocks' && blocks'[h] == blocks[h]
    ensures RecordsValid(ps[i := q], doc, livePages', liveBitmaps', blocks', staged)
  {
    forall j | 0 <= j < |ps| && j != i
      ensures RecordValid(ps[j], doc, livePages', liveBitmaps', blocks', staged)
    {
      assert RecordValid(ps[j], doc, livePages, liveBitmaps, blocks, staged);
      assert ps[j].instancePtr != 0 ==> HandleOf(ps[j], PageHandle) != HandleOf(ps[i], PageHandle);
      assert ps[j].bitmapPtr != 0 ==> HandleOf(ps[j], BitmapHandle) != HandleOf(ps[i], BitmapHandle);
      assert ps[j].bitmapBufferPtr != 0 ==> HandleOf(ps[j], BufferHandle) != HandleOf(ps[i], BufferHandle);
    }
  }

  /** Records stay valid when the arena gains blocks. */
  lemma RecordsValidWithMoreBlocks(ps: seq<Page>, doc: nat, livePages: map<nat, nat>, liveBitmaps: map<nat, BitmapInfo>,
                                   blocks: map<nat, nat>, blocks': map<nat, nat>, staged: nat)
    requires RecordsValid(ps, doc, livePages, liveBitmaps, blocks, staged)
    requires forall h :: h in blocks ==> h in blocks' && blocks'[h] == blocks[h]
    ensures RecordsValid(ps, doc, livePages, liveBitmaps, blocks', staged)
  {
    forall i | 0 <= i < |ps| ensures RecordValid(ps[i], doc, livePages, liveBitmaps, blocks', staged) {
      assert RecordValid(ps[i], doc, livePages, liveBitmaps, blocks, staged);
    }
  }

  /** Replacing record `i` by `q` keeps the records' handles distinct when
      no other record holds one of `q`'s handles. */
  lemma DistinctAfterUpdate(ps: seq<Page>, i: nat, q: Page)
    requires i < |ps| && DistinctHandles(ps)
    requires forall j, k :: 0 <= j < |ps| && j != i && HandleOf(q, k) != 0 ==> HandleOf(ps[j], k) != HandleOf(q, k)
    ensures DistinctHandles(ps[i := q])
  {
  }

  /** Clearing record `i`'s bitmap while the engine loses exactly that
      bitmap keeps every record valid, the handles distinct and the
      document's pages owned. */
  lemma ClearBitmapKeepsValid(ps: seq<Page>, i: nat, doc: nat, staged: nat, livePages: map<nat, nat>,
                              liveBitmaps: map<nat, BitmapInfo>, blocks: map<nat, nat>)
    requires i < |ps| && DistinctHandles(ps)
    requires RecordsValid(ps, doc, livePages, liveBitmaps, blocks, staged)
    ensures var q := ps[i].(bitmapPtr := MemoryNullptr);
      && RecordsValid(ps[i := q], doc, livePages, liveBitmaps - {ps[i].bitmapPtr}, blocks, staged)
      && DistinctHandles(ps[i := q])
      && (PagesOfDocumentOwned(ps, doc, livePages) && 0 !in livePages ==> PagesOfDocumentOwned(ps[i := q], doc, livePages))
  {
    var q := ps[i].(bitmapPtr := MemoryNullptr);
    assert RecordValid(ps[i], doc, livePages, liveBitmaps, blocks, staged);
    RecordsValidAfterUpdate(ps, i, q, doc, staged, livePages, liveBitmaps, blocks,
      livePages, liveBitmaps - {ps[i].bitmapPtr}, blocks);
    DistinctAfterUpdate(ps, i, q);
    if PagesOfDocumentOwned(ps, doc, livePages) && 0 !in livePages {
      PagesOwnedAfterUpdate(ps, i, q, doc, livePages, livePages);
    }
  }

  /** Clearing the buffer of record `i`, which holds no bitmap, while the
      arena loses exactly that buffer keeps every record valid, the handles
      distinct and the document's pages owned. */
  lemma ClearBufferKeepsValid(ps: seq<Page>, i: nat, doc: nat, staged: nat, livePages: map<nat, nat>,
                              liveBitmaps: map<nat, BitmapInfo>, blocks: map<nat, nat>)
    requires i < |ps| && DistinctHandles(ps) && ps[i].bitmapPtr == MemoryNullptr
    requires RecordsValid(ps, doc, livePages, liveBitmaps, blocks, staged)
    ensures var q := ps[i].(bitmapBufferPtr := MemoryNullptr);
      && RecordsValid(ps[i := q], doc, livePages, liveBitmaps, blocks - {ps[i].bitmapBufferPtr}, staged)
      && DistinctHandles(ps[i := q])
      && (PagesOfDocumentOwned(ps, doc, livePages) && 0 !in livePages ==> PagesOfDocumentOwned(ps[i := q], doc, livePages))
  {
    var q := ps[i].(bitmapBufferPtr := MemoryNullptr);
    assert RecordValid(ps[i], doc, livePages, liveBitmaps, blocks, staged);
    RecordsValidAfterUpdate(ps, i, q, doc, staged, livePages, liveBitmaps, blocks,
      livePages, liveBitmaps, blocks - {ps[i].bitmapBufferPtr});
    DistinctAfterUpdate(ps, i, q);
    if PagesOfDocumentOwned(ps, doc, livePages) && 0 !in livePages {
      PagesOwnedAfterUpdate(ps, i, q, doc, livePages, livePages);
    }
  }

  /** The bitmap and the buffer `p` held, if any, are in `liveBitmaps` and
      `blocks`, and no record of `ps` holds them. */
  ghost predicate Unheld(p: Page, ps: seq<Page>, liveBitmaps: map<nat, BitmapInfo>, blocks: map<nat, nat>)
  {
    && (p.bitmapPtr != MemoryNullptr ==>
          p.bitmapPtr in liveBitmaps && forall j :: 0 <= j < |ps| ==> ps[j].bitmapPtr != p.bitmapPtr)
    && (p.bitmapBufferPtr != MemoryNullptr ==>
          p.bitmapBufferPtr in blocks && forall j :: 0 <= j < |ps| ==> ps[j].bitmapBufferPtr != p.bitmapBufferPtr)
  }

  /** Replacing record `i` by one whose bitmap and buffer are new, while
      the maps only grow, leaves the old bitmap and buffer of record `i`
      allocated and held by no record. */
  lemma ReplacedRecordUnheld(ps: seq<Page>, i: nat, q: Page, doc: nat, staged: nat, livePages: map<nat, nat>,
                             liveBitmaps: map<nat, BitmapInfo>, blocks: map<nat, nat>,
                             liveBitmaps': map<nat, BitmapInfo>, blocks': map<nat, nat>)
    requires i < |ps| && DistinctHandles(ps)
    requires RecordValid(ps[i], doc, livePages, liveBitmaps, blocks, staged)
    requires q.bitmapPtr == MemoryNullptr || q.bitmapPtr !in liveBitmaps
    requires q.bitmapBufferPtr !in blocks
    requires forall h :: h in liveBitmaps ==> h in liveBitmaps'
    requires forall h :: h in blocks ==> h in blocks'
    ensures Unheld(ps[i], ps[i := q], liveBitmaps', blocks')
  {
    var p := ps[i];
    forall j | 0 <= j < |ps| && j != i
      ensures p.bitmapPtr != MemoryNullptr ==> ps[j].bitmapPtr != p.bitmapPtr
      ensures p.bitmapBufferPtr != MemoryNullptr ==> ps[j].bitmapBufferPtr != p.bitmapBufferPtr
    {
      assert HandleOf(p, BitmapHandle) != 0 ==> HandleOf(p, BitmapHandle) != HandleOf(ps[j], BitmapHandle);
      assert HandleOf(p, BufferHandle) != 0 ==> HandleOf(p, BufferHandle) != HandleOf(ps[j], BufferHandle);
    }
  }

  /** The memory the engine may paint through a valid record's bitmap is
      exactly the record's buffer: a BGRA bitmap with a stride of
      `width * 4` spans the `width * height * 4` bytes allocated for it. */
  lemma BitmapCoversBuffer(engine: Engine, p: Page, doc: nat, livePages: map<nat, nat>, blocks: map<nat, nat>, staged: nat)
    requires RecordValid(p, doc, livePages, engine.liveBitmaps, blocks, staged)
    requires p.bitmapPtr != MemoryNullptr
    ensures forall a :: engine.InBitmapBuffer(p.bitmapPtr, a) <==> p.bitmapBufferPtr <= a < p.bitmapBufferPtr + p.bitmapBufferSize
  {
    assert p.width * BytesPerPixel * p.height == BufferSize(p.width, p.height);
  }

  /** The staged copy of the file `f`: a live block of exactly the file's
      size whose cells are the file's bytes. */
  ghost predicate Staged(f: PdfFile, blocks: map<nat, nat>, mem: array<byte>)
    reads mem
  {
    && f.fileSize == |f.byteArray|
    && f.allocatedMemoryPtr in blocks
    && blocks[f.allocatedMemoryPtr] == f.fileSize
    && f.allocatedMemoryPtr + f.fileSize <= mem.Length
    && forall k :: 0 <= k < f.fileSize ==> mem[f.allocatedMemoryPtr + k] == f.byteArray[k]
  }

  /** Where the file is staged; 0 when it is not, or when there is no file. */
  function StagedAddress(file: Option<PdfFile>): nat
  {
    if file.Some? then file.value.allocatedMemoryPtr else MemoryNullptr
  }

  /** The file, the document, the number of records and the engine's
      documents agree. */
  ghost predicate DocumentValid(file: Option<PdfFile>, document: PdfDocument, records: nat, liveDocs: map<nat, nat>)
  {
    && records == document.pageCount
    && (document.isOpen <==> document.instancePtr != 0)
    && (file.Some? ==>
          file.value.fileSize == |file.value.byteArray| &&
          (file.value.allocatedMemoryPtr != 0 <==> document.isOpen))
    && (document.isOpen ==>
          && file.Some?
          && document.instancePtr in liveDocs
          && liveDocs[document.instancePtr] == document.pageCount)
  }

  /** The output canvas element; only its size is modelled. */
  class Canvas {
    var width: int
    var height: int

    constructor (width: int, height: int)
      ensures this.width == width && this.height == height
    {
      this.width, this.height := width, height;
    }
  }

  class PDFRenderer {
    /** The engine and the linear memory: one of each per program. */
    const engine: Engine
    const arena: Arena

    var file: Option<PdfFile>
    var document: PdfDocument
    var pages: seq<Page>

    ghost predicate Valid()
      reads this, engine, arena, arena.mem
    {
      && engine.Valid()
      && arena.Valid()
      && DocumentValid(file, document, |pages|, engine.liveDocs)
      && (document.isOpen ==> Staged(file.value, arena.blocks, arena.mem))
      && (document.isOpen ==> PagesOfDocumentOwned(pages, document.instancePtr, engine.livePages))
      && RecordsValid(pages, document.instancePtr, engine.livePages, engine.liveBitmaps, arena.blocks, StagedAddress(file))
      && DistinctHandles(pages)
    }

    /** The guard `_prepareRender` passes: the index is within the page
        count, there is a canvas, and the page is open. */
    ghost predicate CanPrepare(canvas: Canvas?, pageIndex: int)
      reads this
    {
      0 <= pageIndex < document.pageCount && pageIndex < |pages| && canvas != null && pages[pageIndex].isOpen
    }

    /** A renderer for `byteArray`, or for no file at all; nothing is open. */
    constructor (engine: Engine, arena: Arena, byteArray: Option<seq<byte>>)
      requires engine.Valid() && arena.Valid()
      ensures Valid()
      ensures this.engine == engine && this.arena == arena
      ensures file == if byteArray.Some? then Some(PdfFile(|byteArray.value|, byteArray.value, MemoryNullptr)) else None
      ensures document == PdfDocument(false, 0, MemoryNullptr)
      ensures pages == []
    {
      this.engine := engine;
      this.arena := arena;
      if byteArray.Some? {
        file := Some(PdfFile(|byteArray.value|, byteArray.value, MemoryNullptr));
      } else {
        file := None;
      }
      document := PdfDocument(false, 0, MemoryNullptr);
      pages := [];
    }

    /** `getPageCount`: what the engine reports for the current document
        handle, which is 0 whenever no document is open. */
    function GetPageCount(): (n: nat)
      reads this, engine
      requires document.instancePtr == MemoryNullptr || document.instancePtr in engine.liveDocs
      ensures engine.Valid() ==>
        n == if document.instancePtr == MemoryNullptr then 0 else engine.liveDocs[document.instancePtr]
      ensures DocumentValid(file, document, |pages|, engine.liveDocs) && engine.Valid() ==> n == if document.isOpen then document.pageCount else 0
    {
      engine.GetPageCount(document.instancePtr)
    }

    /** `openDocument`: fails without effect when there is no file or a
        document is already open. Otherwise copies the file into a fresh
        block, opens it in the engine, and makes one closed record per page
        the engine finds. */
    method OpenDocument() returns (ok: bool)
      requires Valid()
      modifies this, engine, arena, arena.mem
      ensures Valid()
      ensures ok <==> old(file).Some? && !old(document.isOpen)
      ensures !ok ==> file == old(file) && document == old(document) && pages == old(pages)
      ensures !ok ==> engine.liveDocs == old(engine.liveDocs) && arena.blocks == old(arena.blocks)
      ensures !ok ==> arena.mem == old(arena.mem) && arena.mem[..] == old(arena.mem[..])
      ensures ok ==> Opened(old(file).value)
      ensures engine.livePages == old(engine.livePages) && engine.liveBitmaps == old(engine.liveBitmaps)
      ensures arena.mem == old(arena.mem) || fresh(arena.mem)
    {
      if file.None? {
        return false;
      }
      if document.isOpen {
        return false;
      }
      LoadDocument();
      ok := true;
    }

    /** The state a successful `openDocument` of the file `f` leaves: the
        file's bytes staged in a new block, every other cell of the memory
        as it was, a new document handle whose page count is what the engine
        parses from those bytes, and one fresh record per page. */
    twostate predicate Opened(f: PdfFile)
      reads this, engine, arena, arena.mem
    {
      && file.Some? && file.value.byteArray == f.byteArray && file.value.fileSize == f.fileSize
      && file.value.allocatedMemoryPtr !in old(arena.blocks)
      && old(arena.mem.Length) <= arena.mem.Length
      && (forall a :: 0 <= a < old(arena.mem.Length) && !(file.value.allocatedMemoryPtr <= a < file.value.allocatedMemoryPtr + f.fileSize) ==>
            arena.mem[a] == old(arena.mem[a]))
      && arena.blocks == old(arena.blocks)[file.value.allocatedMemoryPtr := f.fileSize]
      && document.isOpen && document.instancePtr !in old(engine.liveDocs)
      && engine.liveDocs == old(engine.liveDocs)[document.instancePtr := document.pageCount]
      && document.pageCount == engine.parse(f.byteArray)
      && pages == FreshPages(document.pageCount)
    }

    /** `openDocument` past its guards. */
    method LoadDocument()
      requires Valid() && file.Some? && !document.isOpen
      modifies this, engine, arena, arena.mem
      ensures Valid()
      ensures Opened(old(file).value)
      ensures engine.livePages == old(engine.livePages) && engine.liveBitmaps == old(engine.liveBitmaps)
      ensures arena.mem == old(arena.mem) || fresh(arena.mem)
    {
      var f := file.value;
      ghost var livePages := engine.livePages;
      assert forall h :: h in livePages ==> livePages[h] in engine.liveDocs;
      var ptr := StageFile();
      ghost var staged := arena.mem[ptr..ptr + f.fileSize];
      assert staged == f.byteArray;
      var handle := engine.LoadMemDocument(arena, ptr, f.fileSize, "");
      assert engine.liveDocs[handle] == engine.parse(f.byteArray);
      AdoptDocument(handle);
    }

    /** The end of `openDocument`: record the engine's handle, read the
        page count and make one closed record per page. */
    method AdoptDocument(handle: nat)
      requires engine.Valid() && arena.Valid() && file.Some? && !document.isOpen
      requires file.value.allocatedMemoryPtr != MemoryNullptr && Staged(file.value, arena.blocks, arena.mem)
      requires handle != MemoryNullptr && handle in engine.liveDocs
      requires forall h :: h in engine.livePages ==> engine.livePages[h] != handle
      modifies this
      ensures Valid()
      ensures file == old(file) && pages == FreshPages(document.pageCount)
      ensures document == PdfDocument(true, engine.liveDocs[handle], handle)
    {
      document := document.(instancePtr := handle);
      document := document.(isOpen := true);
      var count := GetPageCount();
      document := document.(pageCount := count);
      pages := FreshPages(count);
      FreshPagesValid(count, handle, engine.livePages, engine.liveBitmaps, arena.blocks, StagedAddress(file));
    }

    /** The first step of `openDocument`: allocate a block of the file's
        size and copy the file's bytes into it. */
    method StageFile() returns (ptr: nat)
      requires arena.Valid() && file.Some? && file.value.fileSize == |file.value.byteArray|
      modifies this, arena, arena.mem
      ensures arena.Valid()
      ensures file == Some(old(file).value.(allocatedMemoryPtr := ptr))
      ensures ptr != MemoryNullptr && ptr !in old(arena.blocks) && arena.blocks == old(arena.blocks)[ptr := file.value.fileSize]
      ensures Staged(file.value, arena.blocks, arena.mem)
      ensures arena.mem[ptr..ptr + file.value.fileSize] == file.value.byteArray
      ensures old(arena.mem.Length) <= arena.mem.Length
      ensures forall a :: 0 <= a < old(arena.mem.Length) && !(ptr <= a < ptr + file.value.fileSize) ==> arena.mem[a] == old(arena.mem[a])
      ensures document == old(document) && pages == old(pages)
      ensures arena.mem == old(arena.mem) || fresh(arena.mem)
    {
      var f := file.value;
      ptr := arena.Malloc(f.fileSize);
      file := Some(f.(allocatedMemoryPtr := ptr));
      SetBytes(arena.mem, ptr, f.byteArray);
    }

    /** `closeDocument`: fails without effect when there is no file or no
        open document. Otherwise closes every open page, then the document,
        and frees the staged copy of the file. The page count and the
        (closed) records stay behind. */
    method CloseDocument() returns (ok: bool)
      requires Valid()
      modifies this, engine, arena
      ensures Valid()
      ensures ok <==> old(file).Some? && old(document.isOpen)
      ensures !ok ==> file == old(file) && document == old(document) && pages == old(pages)
      ensures !ok ==> engine.liveDocs == old(engine.liveDocs) && engine.livePages == old(engine.livePages)
      ensures !ok ==> engine.liveBitmaps == old(engine.liveBitmaps) && arena.blocks == old(arena.blocks)
      ensures ok ==>
        && document == PdfDocument(false, old(document.pageCount), MemoryNullptr)
        && file == Some(old(file).value.(allocatedMemoryPtr := MemoryNullptr))
        && |pages| == |old(pages)|
        && (forall j :: 0 <= j < |pages| ==> pages[j] == ClosedPage(old(pages)[j]))
        && engine.liveDocs == old(engine.liveDocs) - {old(document.instancePtr)}
        && engine.livePages == old(engine.livePages) - Owned(old(pages), PageHandle)
        && engine.liveBitmaps == old(engine.liveBitmaps) - Owned(old(pages), BitmapHandle)
        && arena.blocks == old(arena.blocks) - Owned(old(pages), BufferHandle) - {old(file).value.allocatedMemoryPtr}
        && (forall h :: h in engine.livePages ==> engine.livePages[h] != old(document.instancePtr))
      ensures arena.mem == old(arena.mem)
    {
      if file.None? {
        return false;
      }
      if !document.isOpen {
        return false;
      }
      ClosePages();
      forall h | h in engine.livePages ensures engine.livePages[h] != document.instancePtr {
        assert h in old(engine.livePages) && h !in Owned(old(pages), PageHandle);
      }
      engine.CloseDocument(document.instancePtr);
      document := document.(instancePtr := MemoryNullptr);
      arena.Free(file.value.allocatedMemoryPtr);
      file := Some(file.value.(allocatedMemoryPtr := MemoryNullptr));
      document := document.(isOpen := false);
      ok := true;
    }

    /** The loop of `closeDocument`: close every record that is open,
        releasing each one's page, bitmap and buffer. */
    method ClosePages()
      requires Valid()
      modifies this, engine, arena
      ensures Valid()
      ensures file == old(file) && document == old(document) && arena.mem == old(arena.mem)
      ensures |pages| == |old(pages)| && forall j :: 0 <= j < |pages| ==> pages[j] == ClosedPage(old(pages)[j])
      ensures engine.liveDocs == old(engine.liveDocs)
      ensures engine.livePages == old(engine.livePages) - Owned(old(pages), PageHandle)
      ensures engine.liveBitmaps == old(engine.liveBitmaps) - Owned(old(pages), BitmapHandle)
      ensures arena.blocks == old(arena.blocks) - Owned(old(pages), BufferHandle)
    {
      ghost var ps, livePages0, liveBitmaps0, blocks0, liveDocs0 := pages, engine.livePages, engine.liveBitmaps, arena.blocks, engine.liveDocs;
      ghost var file0, document0, mem0 := file, document, arena.mem;
      assert 0 !in livePages0 && 0 !in liveBitmaps0 && 0 !in blocks0;
      var index := 0;
      while index < |pages|
        invariant 0 <= index <= |pages| == |ps|
        invariant Valid()
        invariant file == file0 && document == document0 && arena.mem == mem0
        invariant forall j :: 0 <= j < index ==> pages[j] == ClosedPage(ps[j])
        invariant forall j :: index <= j < |pages| ==> pages[j] == ps[j]
        invariant engine.liveDocs == liveDocs0
        invariant engine.livePages == livePages0 - Owned(ps[..index], PageHandle)
        invariant engine.liveBitmaps == liveBitmaps0 - Owned(ps[..index], BitmapHandle)
        invariant arena.blocks == blocks0 - Owned(ps[..index], BufferHandle)
      {
        CloseStep(index, ps, livePages0, liveBitmaps0, blocks0);
        index := index + 1;
      }
      assert ps[..index] == ps;
    }

    /** One turn of the loop of `closeDocument`, stated against the records
        `ps` and the maps `livePages0`, `liveBitmaps0` and `blocks0` as they
        were before the loop: after closing record `index`, the maps have
        lost the handles of the first `index + 1` records. */
    method CloseStep(index: nat, ghost ps: seq<Page>, ghost livePages0: map<nat, nat>,
                     ghost liveBitmaps0: map<nat, BitmapInfo>, ghost blocks0: map<nat, nat>)
      requires Valid() && index < |pages| == |ps| && pages[index] == ps[index]
      requires 0 !in livePages0 && 0 !in liveBitmaps0 && 0 !in blocks0
      requires engine.livePages == livePages0 - Owned(ps[..index], PageHandle)
      requires engine.liveBitmaps == liveBitmaps0 - Owned(ps[..index], BitmapHandle)
      requires arena.blocks == blocks0 - Owned(ps[..index], BufferHandle)
      modifies this, engine, arena
      ensures Valid()
      ensures file == old(file) && document == old(document) && arena.mem == old(arena.mem)
      ensures pages == old(pages)[index := ClosedPage(ps[index])]
      ensures engine.liveDocs == old(engine.liveDocs)
      ensures engine.livePages == livePages0 - Owned(ps[..index + 1], PageHandle)
      ensures engine.liveBitmaps == liveBitmaps0 - Owned(ps[..index + 1], BitmapHandle)
      ensures arena.blocks == blocks0 - Owned(ps[..index + 1], BufferHandle)
    {
      CloseIfOpen(index);
      OwnedPrefix(ps, index, PageHandle);
      OwnedPrefix(ps, index, BitmapHandle);
      OwnedPrefix(ps, index, BufferHandle);
      RemoveOneMore(livePages0, Owned(ps[..index], PageHandle), ps[index].instancePtr, old(engine.livePages), engine.livePages);
      RemoveOneMore(liveBitmaps0, Owned(ps[..index], BitmapHandle), ps[index].bitmapPtr, old(engine.liveBitmaps), engine.liveBitmaps);
      RemoveOneMore(blocks0, Owned(ps[..index], BufferHandle), ps[index].bitmapBufferPtr, old(arena.blocks), arena.blocks);
    }

    /** The callback of the loop of `closeDocument`: close record `index`
        if it is open. A record that is not open holds no handle, so either
        way each map loses the record's handle of its kind, or nothing when
        that handle is null. */
    method CloseIfOpen(index: nat)
      requires Valid() && index < |pages|
      modifies this, engine, arena
      ensures Valid()
      ensures file == old(file) && document == old(document) && arena.mem == old(arena.mem)
      ensures pages == old(pages)[index := ClosedPage(old(pages[index]))]
      ensures engine.liveDocs == old(engine.liveDocs)
      ensures Removed(old(engine.livePages), old(pages[index].instancePtr), engine.livePages)
      ensures Removed(old(engine.liveBitmaps), old(pages[index].bitmapPtr), engine.liveBitmaps)
      ensures Removed(old(arena.blocks), old(pages[index].bitmapBufferPtr), arena.blocks)
    {
      if pages[index].isOpen {
        var _ := ClosePage(index);
      } else {
        assert RecordValid(pages[index], document.instancePtr, engine.livePages, engine.liveBitmaps, arena.blocks, StagedAddress(file));
      }
    }

    /** `openPage`: fails without effect when the index is outside the page
        count or the page is already open. Otherwise loads the page from the
        current document handle and marks the record open. */
    method OpenPage(pageIndex: int) returns (ok: bool)
      requires Valid()
      modifies this, engine
      ensures Valid()
      ensures ok <==> 0 <= pageIndex < old(document.pageCount) && !old(pages[pageIndex].isOpen)
      ensures document == old(document) && file == old(file)
      ensures engine.liveDocs == old(engine.liveDocs) && engine.liveBitmaps == old(engine.liveBitmaps)
      ensures !ok ==> pages == old(pages) && engine.livePages == old(engine.livePages)
      ensures ok ==>
        var h := pages[pageIndex].instancePtr;
        && pages == old(pages)[pageIndex := old(pages[pageIndex]).(isOpen := true, instancePtr := h)]
        && (h != MemoryNullptr <==> document.isOpen)
        && (h != MemoryNullptr ==>
              h !in old(engine.livePages) && engine.livePages == old(engine.livePages)[h := document.instancePtr])
        && (h == MemoryNullptr ==> engine.livePages == old(engine.livePages))
    {
      if pageIndex < 0 || document.pageCount - 1 < pageIndex {
        return false;
      }
      if pages[pageIndex].isOpen {
        return false;
      }
      var handle := engine.LoadPage(document.instancePtr, pageIndex);
      var q := pages[pageIndex].(instancePtr := handle, isOpen := true);
      pages := pages[pageIndex := q];
      ok := true;
      RecordsValidAfterUpdate(old(pages), pageIndex, q, document.instancePtr, StagedAddress(file),
        old(engine.livePages), engine.liveBitmaps, arena.blocks, engine.livePages, engine.liveBitmaps, arena.blocks);
      forall j, k | 0 <= j < |old(pages)| && j != pageIndex && HandleOf(q, k) != 0
        ensures HandleOf(old(pages)[j], k) != HandleOf(q, k)
      {
        assert RecordValid(old(pages)[j], document.instancePtr, old(engine.livePages), engine.liveBitmaps, arena.blocks, StagedAddress(file));
      }
      DistinctAfterUpdate(old(pages), pageIndex, q);
      if document.isOpen {
        PagesOwnedAfterUpdate(old(pages), pageIndex, q, document.instancePtr, old(engine.livePages), engine.livePages);
      }
    }

    /** `closePage`: fails without effect when the index is outside the page
        count or the page is not open. Otherwise releases the page's bitmap
        and buffer, closes the page in the engine and marks the record
        closed. */
    method ClosePage(pageIndex: int) returns (ok: bool)
      requires Valid()
      modifies this, engine, arena
      ensures Valid()
      ensures ok <==> 0 <= pageIndex < old(document.pageCount) && old(pages[pageIndex].isOpen)
      ensures document == old(document) && file == old(file) && arena.mem == old(arena.mem)
      ensures engine.liveDocs == old(engine.liveDocs)
      ensures !ok ==> pages == old(pages) && engine.livePages == old(engine.livePages)
      ensures !ok ==> engine.liveBitmaps == old(engine.liveBitmaps) && arena.blocks == old(arena.blocks)
      ensures ok ==>
        var p := old(pages[pageIndex]);
        && pages == old(pages)[pageIndex := ClosedPage(p)]
        && engine.livePages == old(engine.livePages) - {p.instancePtr}
        && engine.liveBitmaps == old(engine.liveBitmaps) - {p.bitmapPtr}
        && arena.blocks == old(arena.blocks) - {p.bitmapBufferPtr}
    {
      if pageIndex < 0 || document.pageCount - 1 < pageIndex {
        return false;
      }
      if !pages[pageIndex].isOpen {
        return false;
      }
      DestroyPageBitmap(pageIndex);
      ghost var mid, livePages := pages, engine.livePages;
      engine.ClosePage(pages[pageIndex].instancePtr);
      var q := pages[pageIndex].(instancePtr := MemoryNullptr, isOpen := false);
      pages := pages[pageIndex := q];
      ok := true;
      RecordsValidAfterUpdate(mid, pageIndex, q, document.instancePtr, StagedAddress(file),
        livePages, engine.liveBitmaps, arena.blocks, engine.livePages, engine.liveBitmaps, arena.blocks);
      DistinctAfterUpdate(mid, pageIndex, q);
      if document.isOpen {
        PagesOwnedAfterUpdate(mid, pageIndex, q, document.instancePtr, livePages, engine.livePages);
      }
    }

    /** `_destroyPageBitmap`: destroys the record's bitmap and frees its
        buffer, each only when it is not null, and clears both. */
    method DestroyPageBitmap(pageIndex: nat)
      requires Valid() && pageIndex < |pages|
      modifies this, engine, arena
      ensures Valid()
      ensures pages == old(pages)[pageIndex := old(pages[pageIndex]).(bitmapPtr := MemoryNullptr, bitmapBufferPtr := MemoryNullptr)]
      ensures engine.liveBitmaps == old(engine.liveBitmaps) - {old(pages[pageIndex].bitmapPtr)}
      ensures arena.blocks == old(arena.blocks) - {old(pages[pageIndex].bitmapBufferPtr)}
      ensures engine.liveDocs == old(engine.liveDocs) && engine.livePages == old(engine.livePages)
      ensures document == old(document) && file == old(file) && arena.mem == old(arena.mem)
    {
      DestroyBitmapHandle(pageIndex);
      FreeBitmapBuffer(pageIndex);
    }

    /** The first step of `_destroyPageBitmap`: destroy the record's bitmap
        and clear its pointer, only when it is not null. */
    method DestroyBitmapHandle(pageIndex: nat)
      requires Valid() && pageIndex < |pages|
      modifies this, engine
      ensures Valid()
      ensures pages == old(pages)[pageIndex := old(pages[pageIndex]).(bitmapPtr := MemoryNullptr)]
      ensures engine.liveBitmaps == old(engine.liveBitmaps) - {old(pages[pageIndex].bitmapPtr)}
      ensures engine.liveDocs == old(engine.liveDocs) && engine.livePages == old(engine.livePages)
      ensures document == old(document) && file == old(file)
    {
      var p := pages[pageIndex];
      if p.bitmapPtr != MemoryNullptr {
        ClearBitmapKeepsValid(pages, pageIndex, document.instancePtr, StagedAddress(file),
          engine.livePages, engine.liveBitmaps, arena.blocks);
        engine.BitmapDestroy(p.bitmapPtr);
        pages := pages[pageIndex := p.(bitmapPtr := MemoryNullptr)];
      } else {
        WithoutNull(engine.liveBitmaps);
        assert pages[pageIndex := p.(bitmapPtr := MemoryNullptr)] == pages;
      }
    }

    /** The second step of `_destroyPageBitmap`: free the record's buffer
        and clear its pointer, only when it is not null. */
    method FreeBitmapBuffer(pageIndex: nat)
      requires Valid() && pageIndex < |pages| && pages[pageIndex].bitmapPtr == MemoryNullptr
      modifies this, arena
      ensures Valid()
      ensures pages == old(pages)[pageIndex := old(pages[pageIndex]).(bitmapBufferPtr := MemoryNullptr)]
      ensures arena.blocks == old(arena.blocks) - {old(pages[pageIndex].bitmapBufferPtr)}
      ensures document == old(document) && file == old(file) && arena.mem == old(arena.mem)
    {
      var p := pages[pageIndex];
      if p.bitmapBufferPtr != MemoryNullptr {
        ClearBufferKeepsValid(pages, pageIndex, document.instancePtr, StagedAddress(file),
          engine.livePages, engine.liveBitmaps, arena.blocks);
        arena.Free(p.bitmapBufferPtr);
        pages := pages[pageIndex := p.(bitmapBufferPtr := MemoryNullptr)];
      } else {
        WithoutNull(arena.blocks);
        assert pages[pageIndex := p.(bitmapBufferPtr := MemoryNullptr)] == pages;
      }
    }

    /** `_createPageBitmap`: allocates a zero-filled buffer of
        width * height * 4 bytes and creates a BGRA bitmap over it with a
        stride of width * 4; no other cell of the memory changes. The
        record's previous bitmap and buffer, if any, are not released. */
    method CreatePageBitmap(pageIndex: nat)
      requires Valid() && pageIndex < |pages| && pages[pageIndex].isOpen
      modifies this, engine, arena, arena.mem
      ensures Valid()
      ensures |pages| == |old(pages)|
      ensures
        var p := old(pages[pageIndex]);
        var size := BufferSize(p.width, p.height);
        var buffer, bitmap := pages[pageIndex].bitmapBufferPtr, pages[pageIndex].bitmapPtr;
        && pages == old(pages)[pageIndex := p.(bitmapBufferSize := size, bitmapBufferPtr := buffer, bitmapPtr := bitmap)]
        && buffer != MemoryNullptr && buffer !in old(arena.blocks)
        && arena.blocks == old(arena.blocks)[buffer := size]
        && buffer + size <= arena.mem.Length && old(arena.mem.Length) <= arena.mem.Length
        && (forall a :: buffer <= a < buffer + size ==> arena.mem[a] == 0)
        && (forall a :: 0 <= a < old(arena.mem.Length) && !(buffer <= a < buffer + size) ==> arena.mem[a] == old(arena.mem[a]))
        && (bitmap != MemoryNullptr <==> 0 < p.width && 0 < p.height)
        && (bitmap != MemoryNullptr ==>
              && bitmap !in old(engine.liveBitmaps)
              && engine.liveBitmaps == old(engine.liveBitmaps)[bitmap := BitmapInfo(p.width, p.height, BitmapFormatBGRA, buffer, p.width * 4)])
        && (bitmap == MemoryNullptr ==> engine.liveBitmaps == old(engine.liveBitmaps))
      ensures engine.liveDocs == old(engine.liveDocs) && engine.livePages == old(engine.livePages)
      ensures document == old(document) && file == old(file)
      ensures arena.mem == old(arena.mem) || fresh(arena.mem)
    {
      var p := pages[pageIndex];
      var size := BufferSize(p.width, p.height);
      var buffer := AllocatePageBuffer(p.width * p.height, BytesPerPixel);
      var stride := p.width * 4;
      var bitmap := engine.BitmapCreateEx(p.width, p.height, BitmapFormatBGRA, buffer, stride);
      var q := p.(bitmapBufferSize := size, bitmapBufferPtr := buffer, bitmapPtr := bitmap);
      pages := pages[pageIndex := q];
      RecordsValidAfterUpdate(old(pages), pageIndex, q, document.instancePtr, StagedAddress(file),
        engine.livePages, old(engine.liveBitmaps), old(arena.blocks), engine.livePages, engine.liveBitmaps, arena.blocks);
      forall j, k | 0 <= j < |old(pages)| && j != pageIndex && HandleOf(q, k) != 0
        ensures HandleOf(old(pages)[j], k) != HandleOf(q, k)
      {
        assert RecordValid(old(pages)[j], document.instancePtr, engine.livePages, old(engine.liveBitmaps), old(arena.blocks), StagedAddress(file));
      }
      DistinctAfterUpdate(old(pages), pageIndex, q);
      if document.isOpen {
        PagesOwnedAfterUpdate(old(pages), pageIndex, q, document.instancePtr, engine.livePages, engine.livePages);
      }
    }

    /** The `calloc` of `_createPageBitmap`: a new zero-filled block of
        `num * size` bytes, which no record holds yet; every other cell of
        the memory keeps its value. */
    method AllocatePageBuffer(num: nat, size: nat) returns (buffer: nat)
      requires Valid()
      modifies arena, arena.mem
      ensures Valid()
      ensures buffer != MemoryNullptr && buffer !in old(arena.blocks) && arena.blocks == old(arena.blocks)[buffer := num * size]
      ensures buffer + num * size <= arena.mem.Length && old(arena.mem.Length) <= arena.mem.Length
      ensures forall a :: buffer <= a < buffer + num * size ==> arena.mem[a] == 0
      ensures forall a :: 0 <= a < old(arena.mem.Length) && !(buffer <= a < buffer + num * size) ==> arena.mem[a] == old(arena.mem[a])
      ensures arena.mem == old(arena.mem) || fresh(arena.mem)
    {
      ghost var staged, mem0 := StagedAddress(file), arena.mem[..];
      buffer := Calloc(arena, num, size);
      RecordsValidWithMoreBlocks(pages, document.instancePtr, engine.livePages, engine.liveBitmaps,
        old(arena.blocks), arena.blocks, staged);
      if document.isOpen {
        var f := file.value;
        assert staged + f.fileSize <= buffer || buffer + num * size <= staged;
        forall k | 0 <= k < f.fileSize ensures arena.mem[staged + k] == f.byteArray[k] {
          assert arena.mem[staged + k] == mem0[staged + k];
        }
      }
    }

    /** The resize branch of `_prepareRender`: release the record's bitmap
        and buffer, then record the new size. */
    method Resize(pageIndex: nat, width: nat, height: nat)
      requires Valid() && pageIndex < |pages|
      modifies this, engine, arena
      ensures Valid()
      ensures pages == old(pages)[pageIndex := old(pages[pageIndex]).(
        width := width, height := height, bitmapPtr := MemoryNullptr, bitmapBufferPtr := MemoryNullptr)]
      ensures engine.liveBitmaps == old(engine.liveBitmaps) - {old(pages[pageIndex].bitmapPtr)}
      ensures arena.blocks == old(arena.blocks) - {old(pages[pageIndex].bitmapBufferPtr)}
      ensures engine.liveDocs == old(engine.liveDocs) && engine.livePages == old(engine.livePages)
      ensures document == old(document) && file == old(file) && arena.mem == old(arena.mem)
    {
      DestroyPageBitmap(pageIndex);
      ghost var before := pages;
      var q := pages[pageIndex].(width := width, height := height);
      pages := pages[pageIndex := q];
      RecordsValidAfterUpdate(before, pageIndex, q, document.instancePtr, StagedAddress(file),
        engine.livePages, engine.liveBitmaps, arena.blocks, engine.livePages, engine.liveBitmaps, arena.blocks);
      DistinctAfterUpdate(before, pageIndex, q);
      if document.isOpen {
        PagesOwnedAfterUpdate(before, pageIndex, q, document.instancePtr, engine.livePages, engine.livePages);
      }
    }

    /** `_prepareRender` at the measured size `width` x `height`: does
        nothing unless the index is within the page count, there is a canvas
        and the page is open. Otherwise releases the bitmap only when the
        size changed, creates a new bitmap in every case, and sizes the
        canvas. At an unchanged size the previous bitmap and buffer stay
        allocated with no record left holding them. */
    method PrepareRender(canvas: Canvas?, pageIndex: int, width: nat, height: nat)
      requires Valid()
      modifies this, engine, arena, arena.mem, canvas
      ensures Valid()
      ensures |pages| == |old(pages)| && document == old(document) && file == old(file)
      ensures engine.liveDocs == old(engine.liveDocs) && engine.livePages == old(engine.livePages)
      ensures arena.mem == old(arena.mem) || fresh(arena.mem)
      ensures !old(CanPrepare(canvas, pageIndex)) ==>
        && pages == old(pages) && engine.liveBitmaps == old(engine.liveBitmaps) && arena.blocks == old(arena.blocks)
        && arena.mem == old(arena.mem) && arena.mem[..] == old(arena.mem[..])
        && (canvas != null ==> canvas.width == old(canvas.width) && canvas.height == old(canvas.height))
      ensures old(CanPrepare(canvas, pageIndex)) && (old(pages[pageIndex].width) != width || old(pages[pageIndex].height) != height) ==>
        && Prepared(canvas, pageIndex, width, height, old(pages[pageIndex].rendered),
             old(engine.liveBitmaps) - {old(pages[pageIndex].bitmapPtr)}, old(arena.blocks) - {old(pages[pageIndex].bitmapBufferPtr)})
        && BufferZeroed(pageIndex)
      ensures old(CanPrepare(canvas, pageIndex)) && old(pages[pageIndex].width) == width && old(pages[pageIndex].height) == height ==>
        && Prepared(canvas, pageIndex, width, height, old(pages[pageIndex].rendered), old(engine.liveBitmaps), old(arena.blocks))
        && BufferZeroed(pageIndex)
        && Leaked(old(pages[pageIndex]))
    {
      if pageIndex < 0 || document.pageCount - 1 < pageIndex {
        return;
      }
      if canvas == null {
        return;
      }
      if !pages[pageIndex].isOpen {
        return;
      }
      if pages[pageIndex].width != width || pages[pageIndex].height != height {
        PrepareResized(canvas, pageIndex, width, height);
      } else {
        PrepareSameSize(canvas, pageIndex);
      }
    }

    /** The state `_prepareRender` leaves behind once its guard passed, where
        `bitmaps` and `blocks` are the engine's bitmaps and the arena's blocks
        just before the new bitmap is created: record `pageIndex` holds the
        new size, a new buffer and (for a non-empty size) a new bitmap over
        it, with its rendered flag `rendered`; no memory outside the new
        buffer changed; and the canvas has the new size. */
    twostate predicate Prepared(canvas: Canvas?, pageIndex: int, width: nat, height: nat, rendered: bool,
                                bitmaps: map<nat, BitmapInfo>, blocks: map<nat, nat>)
      reads this, engine, arena, arena.mem, canvas
    {
      && canvas != null
      && 0 <= pageIndex < |old(pages)| == |pages|
      && var p := old(pages[pageIndex]);
      && var size := BufferSize(width, height);
      && var buffer, bitmap := pages[pageIndex].bitmapBufferPtr, pages[pageIndex].bitmapPtr;
      && pages == old(pages)[pageIndex := p.(rendered := rendered, width := width, height := height,
           bitmapBufferSize := size, bitmapBufferPtr := buffer, bitmapPtr := bitmap)]
      && buffer != MemoryNullptr && buffer !in blocks && arena.blocks == blocks[buffer := size]
      && buffer + size <= arena.mem.Length && old(arena.mem.Length) <= arena.mem.Length
      && (forall a :: 0 <= a < old(arena.mem.Length) && !(buffer <= a < buffer + size) ==> arena.mem[a] == old(arena.mem[a]))
      && (bitmap != MemoryNullptr <==> 0 < width && 0 < height)
      && (bitmap != MemoryNullptr ==>
            && bitmap !in bitmaps
            && engine.liveBitmaps == bitmaps[bitmap := BitmapInfo(width, height, BitmapFormatBGRA, buffer, width * 4)])
      && (bitmap == MemoryNullptr ==> engine.liveBitmaps == bitmaps)
      && canvas.width == width && canvas.height == height
    }

    /** Record `pageIndex`'s buffer holds only zeros. */
    ghost predicate BufferZeroed(pageIndex: int)
      reads this, arena, arena.mem
    {
      && 0 <= pageIndex < |pages|
      && var q := pages[pageIndex];
      && q.bitmapBufferPtr + q.bitmapBufferSize <= arena.mem.Length
      && forall a :: q.bitmapBufferPtr <= a < q.bitmapBufferPtr + q.bitmapBufferSize ==> arena.mem[a] == 0
    }

    /** The bitmap and the buffer `p` held, if any, are still allocated, and
        no record holds them any more. */
    ghost predicate Leaked(p: Page)
      reads this, engine, arena
    {
      Unheld(p, pages, engine.liveBitmaps, arena.blocks)
    }

    /** `_prepareRender` past its guard when the size changed: release the
        old bitmap and buffer, record the size, create a new bitmap. */
    method PrepareResized(canvas: Canvas, pageIndex: nat, width: nat, height: nat)
      requires Valid() && CanPrepare(canvas, pageIndex)
      requires pages[pageIndex].width != width || pages[pageIndex].height != height
      modifies this, engine, arena, arena.mem, canvas
      ensures Valid()
      ensures document == old(document) && file == old(file)
      ensures engine.liveDocs == old(engine.liveDocs) && engine.livePages == old(engine.livePages)
      ensures arena.mem == old(arena.mem) || fresh(arena.mem)
      ensures Prepared(canvas, pageIndex, width, height, old(pages[pageIndex].rendered),
        old(engine.liveBitmaps) - {old(pages[pageIndex].bitmapPtr)}, old(arena.blocks) - {old(pages[pageIndex].bitmapBufferPtr)})
      ensures BufferZeroed(pageIndex)
    {
      Resize(pageIndex, width, height);
      CreatePageBitmap(pageIndex);
      canvas.width := width;
      canvas.height := height;
    }

    /** `_prepareRender` past its guard when the size is unchanged: create a
        new bitmap without releasing the old one. */
    method PrepareSameSize(canvas: Canvas, pageIndex: nat)
      requires Valid() && CanPrepare(canvas, pageIndex)
      modifies this, engine, arena, arena.mem, canvas
      ensures Valid()
      ensures document == old(document) && file == old(file)
      ensures engine.liveDocs == old(engine.liveDocs) && engine.livePages == old(engine.livePages)
      ensures arena.mem == old(arena.mem) || fresh(arena.mem)
      ensures Prepared(canvas, pageIndex, old(pages[pageIndex].width), old(pages[pageIndex].height), old(pages[pageIndex].rendered),
        old(engine.liveBitmaps), old(arena.blocks))
      ensures BufferZeroed(pageIndex)
      ensures Leaked(old(pages[pageIndex]))
    {
      ghost var p, pages0, bitmaps0, blocks0 := pages[pageIndex], pages, engine.liveBitmaps, arena.blocks;
      assert RecordValid(p, document.instancePtr, engine.livePages, bitmaps0, blocks0, StagedAddress(file));
      var width, height := pages[pageIndex].width, pages[pageIndex].height;
      CreatePageBitmap(pageIndex);
      canvas.width := width;
      canvas.height := height;
      ReplacedRecordUnheld(pages0, pageIndex, pages[pageIndex], document.instancePtr, StagedAddress(file), engine.livePages,
        bitmaps0, blocks0, engine.liveBitmaps, arena.blocks);
    }

    /** `_renderToBitmap`: paints the record's bitmap white, rasterises the
        page into it and marks the record rendered. Neither engine call does
        anything for a null handle, so a closed page is marked rendered all
        the same. An index with no record makes `_renderToBitmap` throw a
        TypeError; that is the `false` result, with nothing changed. */
    method RenderToBitmap(pageIndex: int) returns (ok: bool)
      requires Valid()
      modifies this, arena.mem
      ensures Valid()
      ensures ok <==> 0 <= pageIndex < |old(pages)|
      ensures document == old(document) && file == old(file)
      ensures ok ==> pages == old(pages)[pageIndex := old(pages[pageIndex]).(rendered := true)]
      ensures !ok ==> pages == old(pages) && arena.mem[..] == old(arena.mem[..])
      ensures ok ==> forall a :: 0 <= a < arena.mem.Length && !engine.InBitmapBuffer(old(pages[pageIndex].bitmapPtr), a) ==>
        arena.mem[a] == old(arena.mem[a])
      ensures ok ==>
        var p := old(pages[pageIndex]);
        forall a :: 0 <= a < arena.mem.Length && !(p.bitmapBufferPtr <= a < p.bitmapBufferPtr + p.bitmapBufferSize) ==>
          arena.mem[a] == old(arena.mem[a])
    {
      if pageIndex < 0 || |pages| <= pageIndex {
        return false;
      }
      PaintPage(pageIndex);
      var q := pages[pageIndex].(rendered := true);
      pages := pages[pageIndex := q];
      ok := true;
      RecordsValidAfterUpdate(old(pages), pageIndex, q, document.instancePtr, StagedAddress(file),
        engine.livePages, engine.liveBitmaps, arena.blocks, engine.livePages, engine.liveBitmaps, arena.blocks);
      DistinctAfterUpdate(old(pages), pageIndex, q);
      if document.isOpen {
        PagesOwnedAfterUpdate(old(pages), pageIndex, q, document.instancePtr, engine.livePages, engine.livePages);
      }
    }

    /** The engine calls of `_renderToBitmap`: fill record `pageIndex`'s
        bitmap with white, then rasterise its page into it. The memory
        changes only inside the record's buffer, so the staged file stays
        intact. */
    method PaintPage(pageIndex: nat)
      requires Valid() && pageIndex < |pages|
      modifies arena.mem
      ensures Valid()
      ensures forall a :: 0 <= a < arena.mem.Length && !engine.InBitmapBuffer(pages[pageIndex].bitmapPtr, a) ==>
        arena.mem[a] == old(arena.mem[a])
      ensures var p := pages[pageIndex];
        forall a :: 0 <= a < arena.mem.Length && !(p.bitmapBufferPtr <= a < p.bitmapBufferPtr + p.bitmapBufferSize) ==>
          arena.mem[a] == old(arena.mem[a])
    {
      var p := pages[pageIndex];
      engine.BitmapFillRect(arena, p.bitmapPtr, 0, 0, p.width, p.height, ColorWhite);
      engine.RenderPageBitmap(arena, p.bitmapPtr, p.instancePtr, 0, 0, p.width, p.height, OrientationNormal, RenderFlag);
      if p.bitmapPtr != MemoryNullptr {
        BitmapCoversBuffer(engine, p, document.instancePtr, engine.livePages, arena.blocks, StagedAddress(file));
      }
      if document.isOpen {
        var f := file.value;
        forall k | 0 <= k < f.fileSize ensures arena.mem[f.allocatedMemoryPtr + k] == f.byteArray[k] {
          assert !engine.InBitmapBuffer(p.bitmapPtr, f.allocatedMemoryPtr + k);
        }
      }
    }

    /** `render` at the measured size `width` x `height`: prepare, then
        render into the bitmap. `completed` is false exactly when
        `_renderToBitmap` throws a TypeError, because there is no record at
        `pageIndex`; painting the
        canvas is not modelled. When the prepare step bails out the page is
        still marked rendered, into whatever bitmap it already had. */
    method Render(canvas: Canvas?, pageIndex: int, width: nat, height: nat) returns (completed: bool)
      requires Valid()
      modifies this, engine, arena, arena.mem, canvas
      ensures Valid()
      ensures completed <==> 0 <= pageIndex < |old(pages)|
      ensures |pages| == |old(pages)| && document == old(document) && file == old(file)
      ensures arena.mem == old(arena.mem) || fresh(arena.mem)
      ensures engine.liveDocs == old(engine.liveDocs) && engine.livePages == old(engine.livePages)
      ensures !completed ==>
        && pages == old(pages) && engine.liveBitmaps == old(engine.liveBitmaps) && arena.blocks == old(arena.blocks)
        && arena.mem == old(arena.mem) && arena.mem[..] == old(arena.mem[..])
        && (canvas != null ==> canvas.width == old(canvas.width) && canvas.height == old(canvas.height))
      ensures completed && !old(CanPrepare(canvas, pageIndex)) ==>
        && pages == old(pages)[pageIndex := old(pages[pageIndex]).(rendered := true)]
        && engine.liveBitmaps == old(engine.liveBitmaps) && arena.blocks == old(arena.blocks)
        && arena.mem == old(arena.mem)
        && (canvas != null ==> canvas.width == old(canvas.width) && canvas.height == old(canvas.height))
        && forall a :: 0 <= a < arena.mem.Length && !engine.InBitmapBuffer(old(pages[pageIndex].bitmapPtr), a) ==>
             arena.mem[a] == old(arena.mem[a])
      ensures old(CanPrepare(canvas, pageIndex)) && (old(pages[pageIndex].width) != width || old(pages[pageIndex].height) != height) ==>
        Prepared(canvas, pageIndex, width, height, true,
          old(engine.liveBitmaps) - {old(pages[pageIndex].bitmapPtr)}, old(arena.blocks) - {old(pages[pageIndex].bitmapBufferPtr)})
      ensures old(CanPrepare(canvas, pageIndex)) && old(pages[pageIndex].width) == width && old(pages[pageIndex].height) == height ==>
        && Prepared(canvas, pageIndex, width, height, true, old(engine.liveBitmaps), old(arena.blocks))
        && Leaked(old(pages[pageIndex]))
    {
      PrepareRender(canvas, pageIndex, width, height);
      completed := RenderToBitmap(pageIndex);
    }
  }
}
