# PDFRenderer and the wasm memory helpers, in Dafny

This project models the page-by-page PDF renderer of the pdfium.js example application, which drives PDFium compiled to WebAssembly. It also models the small helpers that work on the WebAssembly linear memory.

- `memory.dfy` (module `Memory`) covers the linear memory and its allocator:
  - the memory is a byte `array`;
  - the `malloc`/`free` allocator is the `Arena` class, which keeps a map of live blocks;
  - `fill`, `getData` and `calloc` follow the typed-array methods they call, including how those clamp negative and out-of-range start and end arguments.
- `pdfium.dfy` (module `Pdfium`) is the foreign engine as the renderer sees it, written as the `Engine` class.
  - It keeps track of the live document, page and bitmap handles.
  - Every successful open or create returns a handle that is non-zero and not already live.
  - Every close or destroy accepts the null handle or a live one.
  - Parsing is an opaque function from bytes to a page count.
  - Rasterising writes bytes of the engine's own choosing, and only into the bitmap's buffer.
- `pdf_renderer.dfy` (module `PdfRenderer`) is the `PDFRenderer` class, with the file, the document and the page records as datatypes.
  - Its invariant `Valid` ties the records to the engine and the arena. Every non-null handle or buffer a record holds is alive. No two records share one. Every live page of the open document is held by a record. The staged copy of the file is intact while the document is open.
  - Each operation is proved to keep `Valid` and to produce exactly the new state the source produces, including on its failure paths, within the limits listed under "Left out" (the engine's and the allocator's own heap use, 32-bit sizes).
- `scenarios.dfy` (module `Scenarios`) contains verified call sequences that exhibit three quirks of the renderer.
  - Rendering twice at the same size leaks the first bitmap and buffer.
  - `openPage` succeeds after `closeDocument` and loads from the null document.
  - A page that was never opened is still marked rendered.

The model follows the code as written. Some of its behaviour is easy to miss:
- `closePage` does not reset the page's rendered flag.
- `_prepareRender` creates a new bitmap and buffer on every call, even at an unchanged size. The comment at example/src/pdf-renderer.ts:304 says the pair is re-created only when the size changes. Yet at an unchanged size the old pair is neither released nor held by any record.
- At a zero width or height the buffer is still allocated (with 0 bytes), but the engine returns a null bitmap. So a record can hold a buffer without a bitmap. The invariant says only that a bitmap implies a buffer.
- `getPageCount` asks the engine every time; on the null document it gets 0.
- `closeDocument` keeps the page count and the closed records. Afterwards `openPage` passes its bounds check, gets the null page handle, and marks the record open.
- An empty byte array counts as a file: it is accepted and staged as a block of 0 bytes.

## Model

| member | source | states |
|---|---|---|
| Memory.ToByte | src/memory.ts:19-21 | an 8-bit view stores a value modulo 256, and keeps values in 0..255 unchanged |
| Memory.RelativeIndex | src/memory.ts:20 | a typed-array start or end argument becomes an index in 0..len: in-range values are kept, a negative value from `-len` on counts back from the end, one below `-len` gives 0, and one above `len` gives `len` |
| Memory.Filled | src/memory.ts:19-21 | the memory after `fill`: the cells between the clamped start and end hold the value, every other cell is unchanged, and the length is kept |
| Memory.Fill | src/memory.ts:19-21 | `fill` turns the array's contents into `Filled` of its old contents |
| Memory.FillSetsRange | src/memory.ts:19-21 | for an in-range `fill`, exactly the cells `offset..offset+size-1` hold the fill value |
| Memory.FillKeepsOutside | src/memory.ts:19-21 | an in-range `fill` leaves every cell outside `offset..offset+size-1` unchanged |
| Memory.FillNothing | src/memory.ts:19-21 | a `fill` of size 0 changes nothing, wherever it starts |
| Memory.GetData | src/memory.ts:31-33 | `getData` returns the cells between the clamped start and end, in order; for an in-range request that is exactly `size` cells from `offset`. It only reads the memory |
| Memory.GetDataAfterFill | src/memory.ts:31-33 | reading back a range just filled gives `size` copies of the fill value |
| Memory.SetBytes | example/src/pdf-renderer.ts:88 | `HEAPU8.set` copies the bytes to the offset and leaves the other cells unchanged |
| Memory.Arena.Malloc | src/global.d.ts:20 | `malloc` returns a non-null block of the requested size that overlaps no live block, and keeps the contents of the existing memory |
| Memory.Arena.Free | src/global.d.ts:21 | `free` removes exactly the given block; freeing null does nothing |
| Memory.Calloc | src/memory.ts:42-46 | `calloc` returns the allocator's new block of `num * size` bytes, all zero, and leaves every other cell unchanged |
| Pdfium.Engine.LoadMemDocument | src/global.d.ts:33 | a new non-null document handle whose page count is what the parser finds in the given memory range |
| Pdfium.Engine.CloseDocument | src/global.d.ts:34 | removes the document; allowed only once none of its pages is live |
| Pdfium.Engine.GetPageCount | src/global.d.ts:35 | the document's page count, or 0 for the null handle |
| Pdfium.Engine.LoadPage | src/global.d.ts:37 | a new page handle exactly when the document is live and the index is in range; the null handle otherwise |
| Pdfium.Engine.ClosePage | src/global.d.ts:43 | removes exactly the given page |
| Pdfium.Engine.BitmapCreateEx | src/global.d.ts:56 | a new bitmap recording its size, format, buffer and stride exactly when width and height are positive; the null handle otherwise |
| Pdfium.Engine.BitmapFillRect | src/global.d.ts:57-64 | writes only inside the bitmap's buffer; does nothing for the null bitmap |
| Pdfium.Engine.RenderPageBitmap | src/global.d.ts:65-74 | writes only inside the bitmap's buffer; does nothing when either handle is null |
| Pdfium.Engine.BitmapDestroy | src/global.d.ts:75 | removes exactly the given bitmap; the memory under it stays allocated |
| PdfRenderer.FreshPages | example/src/pdf-renderer.ts:37-48 | `openDocument` makes exactly `n` records, each a copy of the default record: closed, not rendered, with sizes 0 and every pointer null |
| PdfRenderer.FreshPagesValid | example/src/pdf-renderer.ts:37-48 | default records hold no handle, so they are valid against any engine state and own every page of a document that has none |
| PdfRenderer.ClosedPage | example/src/pdf-renderer.ts:173-176 | a closed page is closed and holds no page, bitmap or buffer; its size, buffer length and rendered flag are kept |
| PdfRenderer.OpenThenCloseRestores | example/src/pdf-renderer.ts:154-176 | closing a page that was just opened gives back the record as it was before the open |
| PdfRenderer.BitmapCoversBuffer | example/src/pdf-renderer.ts:235-248 | for a valid record with a bitmap, the memory the engine may paint through that bitmap is exactly the record's buffer of `bitmapBufferSize` bytes |
| PdfRenderer.ClearBitmapKeepsValid | example/src/pdf-renderer.ts:257-260 | clearing one record's bitmap while the engine loses exactly that bitmap keeps every record valid, the handles distinct and the document's pages owned |
| PdfRenderer.ClearBufferKeepsValid | example/src/pdf-renderer.ts:262-265 | clearing the buffer of a record without a bitmap while the arena loses exactly that block keeps every record valid, the handles distinct and the document's pages owned |
| PdfRenderer.ReplacedRecordUnheld | example/src/pdf-renderer.ts:312-313 | when a record's bitmap and buffer are replaced by new ones while the engine and the arena only gain handles, the old pair is still allocated and no record holds it |
| PdfRenderer.PDFRenderer.constructor | example/src/pdf-renderer.ts:54-68 | a renderer holds the given bytes (or no file) with a null staging address, a closed document with 0 pages and no records |
| PdfRenderer.PDFRenderer.GetPageCount | example/src/pdf-renderer.ts:204-210 | `getPageCount` is the engine's count for the current document handle: the open document's page count, and 0 when no document is open |
| PdfRenderer.PDFRenderer.OpenDocument | example/src/pdf-renderer.ts:76-102 | succeeds exactly when a file is present and no document is open. On failure nothing changes. On success the state is `Opened`: the file's bytes sit in one new block, no memory cell outside it changes, the document's page count is the parser's count of those bytes, and there is one fresh record per page |
| PdfRenderer.PDFRenderer.LoadDocument | example/src/pdf-renderer.ts:87-99 | stages the file's bytes in a new block, leaving every other memory cell unchanged; opens a new document over them whose page count is the parser's count of those bytes; and makes that many default records |
| PdfRenderer.PDFRenderer.AdoptDocument | example/src/pdf-renderer.ts:89-99 | the document becomes open with the engine's handle and that handle's page count, and the records are that many default records |
| PdfRenderer.PDFRenderer.StageFile | example/src/pdf-renderer.ts:87-88 | the file's bytes are copied into a new block of the file's size, its address is recorded in the file, and no memory cell outside the block changes |
| PdfRenderer.PDFRenderer.CloseDocument | example/src/pdf-renderer.ts:110-135 | succeeds exactly when a file is present and a document is open. On failure nothing changes. On success every record is closed, every page, bitmap and buffer the records held is released, the document is closed and the staged copy freed, and the page count and records are kept |
| PdfRenderer.PDFRenderer.ClosePages | example/src/pdf-renderer.ts:122-126 | the loop over the records closes each open one: afterwards every record is `ClosedPage` of what it was, and the engine and arena lost exactly the records' handles |
| PdfRenderer.PDFRenderer.CloseStep | example/src/pdf-renderer.ts:122-126 | one iteration: record `index` becomes `ClosedPage` of itself, and the handles removed so far grow from those of the first `index` records to those of the first `index + 1` |
| PdfRenderer.PDFRenderer.CloseIfOpen | example/src/pdf-renderer.ts:123-125 | one step of that loop: the record becomes `ClosedPage` of itself, and each map loses that record's handle of its kind, or nothing when the handle is null |
| PdfRenderer.PDFRenderer.OpenPage | example/src/pdf-renderer.ts:143-161 | succeeds exactly when the index is within the page count and the page is closed. On failure nothing changes. On success only that record changes: it is open, with the handle the engine returned, which is null exactly when no document is open |
| PdfRenderer.PDFRenderer.ClosePage | example/src/pdf-renderer.ts:163-179 | succeeds exactly when the index is within the page count and the page is open. On failure nothing changes. On success the record becomes `ClosedPage` of itself, and the engine and arena lose exactly its page, bitmap and buffer |
| PdfRenderer.PDFRenderer.DestroyPageBitmap | example/src/pdf-renderer.ts:256-266 | both pointers of the record become null, and the engine and arena lose exactly the record's bitmap and buffer (nothing for a null one) |
| PdfRenderer.PDFRenderer.DestroyBitmapHandle | example/src/pdf-renderer.ts:257-260 | the record's bitmap pointer becomes null and the engine loses exactly that bitmap (nothing for null) |
| PdfRenderer.PDFRenderer.FreeBitmapBuffer | example/src/pdf-renderer.ts:262-265 | the record's buffer pointer becomes null and the arena loses exactly that block (nothing for null); the memory array stays the same |
| PdfRenderer.PDFRenderer.CreatePageBitmap | example/src/pdf-renderer.ts:233-249 | the record gets a new zero-filled buffer of `width * height * 4` bytes and, for a positive size, a new BGRA bitmap over it with a stride of `width * 4`. No memory cell outside the new buffer changes. The previous bitmap and buffer are not released |
| PdfRenderer.PDFRenderer.AllocatePageBuffer | example/src/pdf-renderer.ts:235-236 | `calloc` from inside the renderer: a new zero-filled block of `num * size` bytes, every other memory cell unchanged, and the invariant kept |
| PdfRenderer.PDFRenderer.Resize | example/src/pdf-renderer.ts:305-310 | on a size change the record's bitmap and buffer are released and set to null, and the new size is recorded |
| PdfRenderer.PDFRenderer.PrepareRender | example/src/pdf-renderer.ts:280-317 | changes nothing when the index is out of range, the canvas is null or the page is closed. Otherwise the state is `Prepared`: the record holds the new size and a new pair, the engine's bitmaps and the arena's blocks gain exactly that pair, the new buffer is zero-filled (`BufferZeroed`), no memory cell outside it changes, and the canvas has the new size. On a size change the old pair is first released; at the same size it leaks (`Leaked`) |
| PdfRenderer.PDFRenderer.PrepareResized | example/src/pdf-renderer.ts:305-316 | after a size change the state is `Prepared` against the maps without the old pair: the record has the new size and a new zero-filled buffer and bitmap, no memory cell outside the new buffer changes, and the canvas has the new size |
| PdfRenderer.PDFRenderer.PrepareSameSize | example/src/pdf-renderer.ts:312-316 | at an unchanged size the state is `Prepared` against the old maps: the record gets a new zero-filled buffer and bitmap and no memory cell outside the new buffer changes, while the old pair stays allocated with no record holding it |
| PdfRenderer.PDFRenderer.RenderToBitmap | example/src/pdf-renderer.ts:324-354 | the record is marked rendered and is otherwise unchanged. Memory changes only where the engine may paint through its bitmap, and so only inside its buffer. For an index with no record, `_renderToBitmap` throws a TypeError; then nothing changes |
| PdfRenderer.PDFRenderer.PaintPage | example/src/pdf-renderer.ts:333-351 | filling and rasterising write only where the engine may paint through the record's bitmap, so only inside its buffer, and keep the invariant |
| PdfRenderer.PDFRenderer.Render | example/src/pdf-renderer.ts:188-197 | prepare, then render, even when prepare bailed out. A page that could be prepared ends up `Prepared` and rendered: open, at the new size, with a buffer of that size and a bitmap exactly when the size is positive; the engine's bitmaps and the arena's blocks gain exactly the new pair (after losing the old one on a size change); no memory cell outside the new buffer changes. At the same size the old pair leaks. When prepare bails out, only the record's rendered flag changes, the canvas keeps its size, and memory changes only where its old bitmap may be painted. `_renderToBitmap` throws a TypeError for an index with no record; then nothing changes |
| Scenarios.OpenedOnePageDocument | example/src/pdf-renderer.ts:76-102 | opening a four-byte file parsed as one page gives one default record |
| Scenarios.RepeatedRenderLeaksBitmap | example/src/pdf-renderer.ts:305-313 | after two renders at the same size, a bitmap and a buffer from the first render are still live and no record holds them |
| Scenarios.OpenPageAfterCloseDocument | example/src/pdf-renderer.ts:143-158 | after `closeDocument`, `openPage(0)` succeeds and marks the record open with a null page handle |
| Scenarios.RenderClosedPage | example/src/pdf-renderer.ts:192-194 | rendering a page that was never opened still marks it rendered, with no bitmap or buffer, and leaves the canvas at its old size |

## Left out

- `_drawBitmap` (copying the buffer into an `ImageData`, `createImageBitmap`, painting the canvas) is not modelled. It is asynchronous canvas work, outside the renderer's bookkeeping. The canvas keeps only its width and height.
- `_measurePageSize` multiplies the engine's floating-point page size by the scale and rounds down. The model takes the measured width and height as natural-number inputs to `PrepareRender` and `Render` instead.
- Pdfium.Engine.RenderPageBitmap: the pixels are not modelled. Filling and rasterising may write any bytes, but only within the bitmap's buffer.
- Pdfium.Engine: its own heap allocations are not modelled. In the program PDFium shares the WebAssembly memory and its `malloc`, and loading a document, loading a page, creating a bitmap and rendering all allocate and write blocks of their own. In the model the engine neither allocates from the arena nor writes to it outside a bitmap's buffer. So `arena.blocks` and the memory frames ("no memory cell outside the new block changes") cover only the renderer's own blocks and writes.
- Pdfium.Engine.LoadPage: never fails for an in-range index of a live document. PDFium also returns null for a page it cannot load. `OpenPage`'s `h != null <==> document.isOpen` rests on this.
- Pdfium.Engine.LoadMemDocument: never fails. The real engine returns the null handle for malformed or password-protected input.
- PDFium's error codes and its parsing are left out. The parser is an abstract function from bytes to a page count.
- Memory.Arena.Malloc: never fails. Out-of-memory (a null result or an abort, depending on the build) is not modelled. Addresses are not reused, so the model does not show a leaked block's address being handed out again, but no contract depends on that.
- Memory.Arena.Malloc: the allocator's own bookkeeping writes are not modelled. The program's `malloc` keeps chunk headers in the same heap, next to the blocks it hands out. In the model `Malloc` keeps every existing cell. So the frames of `Calloc`, `AllocatePageBuffer`, `CreatePageBitmap`, `StageFile`, `Opened` and `Prepared` hold in the program only for the cells of live blocks.
- Memory.Arena.Free: the allocator's own bookkeeping writes are not modelled. The program's `free` writes free-list links into the freed block. In the model `Free` leaves the memory alone, so a freed block keeps its old contents, for example the staged file after `closeDocument`. No contract reads a freed block's contents.
- Memory.Arena.Malloc: takes an unbounded size. The program passes the size to the WebAssembly export as a 32-bit integer, so a size of 2^31 or more arrives wrapped. The wrap is not modelled, so `Malloc`'s contract describes the program only for sizes below 2^31.
- Memory.Calloc: its contract describes the program only while `num * size` stays below 2^31, where `malloc` receives it unchanged. For a larger product the program's `malloc` receives the product modulo 2^32. The zero fill then runs from the block to the end of the memory, over other live blocks. Neither effect is modelled. For a page buffer the product is `width * height * 4`, so this covers `CreatePageBitmap`, `PrepareRender` and `Render` as well.
- Pdfium.Engine.BitmapCreateEx: its contract describes the program only while `width * height * 4` stays below 2^31. PDFium takes its sizes and stride as 32-bit `int`s and returns null for a bitmap whose `stride * height` overflows. In the model every positive size gives a bitmap; the engine's size limit is not modelled.
- Memory.GetData: returns a copy of the cells, not a view that aliases the memory. Later writes through the view are not modelled. Like `Fill` and `SetBytes`, it works on the byte memory, so it covers 8-bit views only.
- Memory.Fill: handles 8-bit views only. The 16-bit, 32-bit and floating-point views the source's type also allows are left out.
- The renderer's widths, heights and page indices are naturals. Non-integer, negative and NaN values are left out, apart from the negative page index that the bounds checks reject. The memory helpers take integer offsets, sizes and values, negative ones included.
- Console logging is not modelled, and neither is the console's view of `currentPage`.
- The application, the module loader and the package entry point (App.tsx, loader.ts, index.ts) are not part of this model.
- The record field `opened` is called `isOpen` here.
