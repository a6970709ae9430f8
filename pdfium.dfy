/** The boundary of the native PDF engine, as the renderer sees it.

    Parsing and rasterising are opaque. What the model keeps is the engine's
    bookkeeping of which handles are alive: documents (with the page count the
    parser found), pages (with the document they belong to) and bitmaps (with
    the buffer and layout they were created over). Every successful open or
    create returns a handle that is non-zero and not alive already. Every
    close or destroy accepts the null handle, on which PDFium does nothing,
    or a live handle; passing a dangling handle is undefined behaviour and is
    therefore excluded by a precondition. */
module Pdfium {
  import opened Memory

  /** `FPDFBitmap_BGRA`: four bytes per pixel, blue, green, red, alpha. */
  const BitmapFormatBGRA: int := 4

  /** Page rendering flags, combined with bitwise or. */
  const RenderAnnot: bv32 := 0x01
  const RenderLcdText: bv32 := 0x02
  const RenderReverseByteOrder: bv32 := 0x10

  /** Page orientation 0: not rotated. */
  const OrientationNormal: int := 0

  /** What `FPDFBitmap_CreateEx` was given. */
  datatype BitmapInfo = BitmapInfo(width: int, height: int, format: int, firstScan: nat, stride: int)

  class Engine {
    /** The page count the engine's parser finds in a document's bytes. */
    const parse: seq<byte> -> nat

    /** Live documents: handle to page count. */
    var liveDocs: map<nat, nat>
    /** Live pages: handle to the document handle it was loaded from. */
    var livePages: map<nat, nat>
    /** Live bitmaps: handle to how it was created. */
    var liveBitmaps: map<nat, BitmapInfo>
    /** Every handle handed out so far is below `next`. */
    var next: nat

    ghost predicate Valid()
      reads this
    {
      && 1 <= next
      && (forall d :: d in liveDocs ==> 1 <= d < next)
      && (forall p :: p in livePages ==> 1 <= p < next && livePages[p] in liveDocs)
      && (forall b :: b in liveBitmaps ==> 1 <= b < next)
    }

    constructor (parse: seq<byte> -> nat)
      ensures Valid() && this.parse == parse
      ensures liveDocs == map[] && livePages == map[] && liveBitmaps == map[]
    {
      this.parse := parse;
      liveDocs, livePages, liveBitmaps := map[], map[], map[];
      next := 1;
    }

    /** `_FPDF_LoadMemDocument(bufferPtr, size, password)`: open a document
        over the `size` bytes at `bufferPtr`. */
    method LoadMemDocument(heap: Arena, bufferPtr: nat, size: nat, password: string) returns (doc: nat)
      requires Valid()
      requires bufferPtr + size <= heap.mem.Length
      modifies this
      ensures Valid()
      ensures doc != 0 && doc !in old(liveDocs)
      ensures liveDocs == old(liveDocs)[doc := parse(heap.mem[bufferPtr..bufferPtr + size])]
      ensures livePages == old(livePages) && liveBitmaps == old(liveBitmaps)
    {
      doc := next;
      next := next + 1;
      liveDocs := liveDocs[doc := parse(heap.mem[bufferPtr..bufferPtr + size])];
    }

    /** `_FPDF_CloseDocument(doc)`. A document may be closed only once none of
        its pages is alive. */
    method CloseDocument(doc: nat)
      requires Valid()
      requires doc == 0 || doc in liveDocs
      requires forall p :: p in livePages ==> livePages[p] != doc
      modifies this
      ensures Valid()
      ensures liveDocs == old(liveDocs) - {doc}
      ensures livePages == old(livePages) && liveBitmaps == old(liveBitmaps)
    {
      liveDocs := liveDocs - {doc};
    }

    /** `_FPDF_GetPageCount(doc)`: the parsed count; 0 for the null handle. */
    function GetPageCount(doc: nat): (n: nat)
      reads this
      requires doc == 0 || doc in liveDocs
      ensures Valid() ==> n == if doc == 0 then 0 else liveDocs[doc]
    {
      if doc in liveDocs then liveDocs[doc] else 0
    }

    /** `_FPDF_LoadPage(doc, index)`: the null handle when the document is
        null or the index is out of range, a fresh page handle otherwise. */
    method LoadPage(doc: nat, index: int) returns (page: nat)
      requires Valid()
      requires doc == 0 || doc in liveDocs
      modifies this
      ensures Valid()
      ensures page != 0 <==> doc in liveDocs && 0 <= index < liveDocs[doc]
      ensures page != 0 ==> page !in old(livePages) && livePages == old(livePages)[page := doc]
      ensures page == 0 ==> livePages == old(livePages)
      ensures liveDocs == old(liveDocs) && liveBitmaps == old(liveBitmaps)
    {
      if doc in liveDocs && 0 <= index < liveDocs[doc] {
        page := next;
        next := next + 1;
        livePages := livePages[page := doc];
      } else {
        page := 0;
      }
    }

    /** `_FPDF_ClosePage(page)`. */
    method ClosePage(page: nat)
      requires Valid()
      requires page == 0 || page in livePages
      modifies this
      ensures Valid()
      ensures livePages == old(livePages) - {page}
      ensures liveDocs == old(liveDocs) && liveBitmaps == old(liveBitmaps)
    {
      livePages := livePages - {page};
    }

    /** `_FPDFBitmap_CreateEx(width, height, format, firstScan, stride)`: a
        bitmap over caller-owned memory, or the null handle when the width or
        the height is not positive. */
    method BitmapCreateEx(width: int, height: int, format: int, firstScan: nat, stride: int) returns (bitmap: nat)
      requires Valid()
      modifies this
      ensures Valid()
      ensures bitmap != 0 <==> 0 < width && 0 < height
      ensures bitmap != 0 ==>
        bitmap !in old(liveBitmaps) && liveBitmaps == old(liveBitmaps)[bitmap := BitmapInfo(width, height, format, firstScan, stride)]
      ensures bitmap == 0 ==> liveBitmaps == old(liveBitmaps)
      ensures liveDocs == old(liveDocs) && livePages == old(livePages)
    {
      if width <= 0 || height <= 0 {
        return 0;
      }
      bitmap := next;
      next := next + 1;
      liveBitmaps := liveBitmaps[bitmap := BitmapInfo(width, height, format, firstScan, stride)];
    }

    /** `_FPDFBitmap_Destroy(bitmap)`. The memory under the bitmap stays
        allocated: it belongs to the caller. */
    method BitmapDestroy(bitmap: nat)
      requires Valid()
      requires bitmap == 0 || bitmap in liveBitmaps
      modifies this
      ensures Valid()
      ensures liveBitmaps == old(liveBitmaps) - {bitmap}
      ensures liveDocs == old(liveDocs) && livePages == old(livePages)
    {
      liveBitmaps := liveBitmaps - {bitmap};
    }

    /** Whether address `a` lies in the memory a live bitmap was created over. */
    predicate InBitmapBuffer(bitmap: nat, a: int)
      reads this
    {
      bitmap in liveBitmaps &&
      var info := liveBitmaps[bitmap];
      info.firstScan <= a < info.firstScan + info.stride * info.height
    }

    /** The engine writes pixels of its own choosing into the bitmap's memory. */
    method Paint(heap: Arena, bitmap: nat)
      requires bitmap in liveBitmaps
      modifies heap.mem
      ensures forall a :: 0 <= a < heap.mem.Length && !InBitmapBuffer(bitmap, a) ==> heap.mem[a] == old(heap.mem[a])
    {
      var info := liveBitmaps[bitmap];
      var a := info.firstScan;
      while a < info.firstScan + info.stride * info.height && a < heap.mem.Length
        invariant info.firstScan <= a
        invariant forall b :: 0 <= b < heap.mem.Length && !InBitmapBuffer(bitmap, b) ==> heap.mem[b] == old(heap.mem[b])
      {
        var pixel: byte :| true;
        heap.mem[a] := pixel;
        a := a + 1;
      }
    }

    /** `_FPDFBitmap_FillRect`: paints into the bitmap's memory and nowhere
        else; the null bitmap is ignored. The colours written are not
        modelled. */
    method BitmapFillRect(heap: Arena, bitmap: nat, left: int, top: int, width: int, height: int, color: int)
      requires Valid()
      requires bitmap == 0 || bitmap in liveBitmaps
      modifies heap.mem
      ensures forall a :: 0 <= a < heap.mem.Length && !InBitmapBuffer(bitmap, a) ==> heap.mem[a] == old(heap.mem[a])
    {
      if bitmap != 0 {
        Paint(heap, bitmap);
      }
    }

    /** `_FPDF_RenderPageBitmap`: rasterises a page into the bitmap's memory
        and nowhere else; nothing happens when either handle is null. */
    method RenderPageBitmap(heap: Arena, bitmap: nat, page: nat, startX: int, startY: int, sizeX: int, sizeY: int,
                            rotate: int, flags: bv32)
      requires Valid()
      requires bitmap == 0 || bitmap in liveBitmaps
      requires page == 0 || page in livePages
      modifies heap.mem
      ensures forall a :: 0 <= a < heap.mem.Length && !InBitmapBuffer(bitmap, a) ==> heap.mem[a] == old(heap.mem[a])
    {
      if bitmap != 0 && page != 0 {
        Paint(heap, bitmap);
      }
    }
  }
}
