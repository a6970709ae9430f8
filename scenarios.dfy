/** Call sequences of the renderer on a one-page document that show its
    behaviour at the edges: the bitmap that repeated rendering leaves
    behind, the stale page count after closing, and rendering a page that
    was never opened. */
module Scenarios {
  import opened Memory
  import opened Pdfium
  import opened PdfRenderer

  /** A renderer over a four-byte file that the engine parses as one page. */
  method OpenedOnePageDocument() returns (r: PDFRenderer)
    ensures r.Valid() && fresh(r) && fresh(r.engine) && fresh(r.arena) && fresh(r.arena.mem)
    ensures r.document.isOpen && r.document.pageCount == 1 && |r.pages| == 1
    ensures !r.pages[0].isOpen && r.pages[0] == DefaultPage
  {
    var engine := new Engine(_ => 1);
    var arena := new Arena(0);
    r := new PDFRenderer(engine, arena, Some([37, 80, 68, 70]));
    var ok := r.OpenDocument();
  }

  /** Rendering a page twice at the same size creates a second bitmap and
      buffer; the first pair stays alive with no record holding it. */
  method RepeatedRenderLeaksBitmap() returns (r: PDFRenderer, leaked: nat, leakedBuffer: nat)
    ensures r.Valid()
    ensures leaked != MemoryNullptr && leaked in r.engine.liveBitmaps
    ensures forall j :: 0 <= j < |r.pages| ==> r.pages[j].bitmapPtr != leaked
    ensures leakedBuffer != MemoryNullptr && leakedBuffer in r.arena.blocks
    ensures forall j :: 0 <= j < |r.pages| ==> r.pages[j].bitmapBufferPtr != leakedBuffer
  {
    r := OpenedOnePageDocument();
    var ok := r.OpenPage(0);
    var canvas := new Canvas(300, 150);
    var completed := r.Render(canvas, 0, 100, 50);
    leaked, leakedBuffer := r.pages[0].bitmapPtr, r.pages[0].bitmapBufferPtr;
    completed := r.Render(canvas, 0, 100, 50);
  }

  /** After `closeDocument` the page count is not reset, so `openPage`
      passes its bounds check, loads from the null document and marks the
      record open with a null page handle. */
  method OpenPageAfterCloseDocument() returns (r: PDFRenderer, ok: bool)
    ensures r.Valid()
    ensures ok && !r.document.isOpen && r.document.pageCount == 1 && |r.pages| == 1
    ensures r.pages[0].isOpen && r.pages[0].instancePtr == MemoryNullptr
  {
    r := OpenedOnePageDocument();
    var closed := r.CloseDocument();
    ok := r.OpenPage(0);
  }

  /** Rendering a page that was never opened skips the prepare step, yet the
      record is marked rendered, with no bitmap behind it. */
  method RenderClosedPage() returns (r: PDFRenderer, completed: bool, canvas: Canvas)
    ensures r.Valid()
    ensures |r.pages| == 1
    ensures completed && r.pages[0].rendered && !r.pages[0].isOpen
    ensures r.pages[0].bitmapPtr == MemoryNullptr && r.pages[0].bitmapBufferPtr == MemoryNullptr
    ensures canvas.width == 300 && canvas.height == 150
  {
    r := OpenedOnePageDocument();
    canvas := new Canvas(300, 150);
    completed := r.Render(canvas, 0, 100, 50);
  }
}
