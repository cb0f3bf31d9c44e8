/**
 * Sizes and ranges of framebuffers in the driver: the layout arithmetic, what framebuffer creation and
 * the atomic check accept, and the capacity set up for transfers. All C arithmetic is written with its
 * width, so that the lemmas can say where nothing wraps.
 */
module FrameLayout {
  import opened Arith
  import opened Bytes

  datatype Format = Rgb565 | Xrgb8888 | Unsupported

  function BytesPerPixel(f: Format): nat {
    match f
    case Rgb565 => 2
    case Xrgb8888 => 4
    case Unsupported => 0
  }

  datatype Layout = Layout(bytesPerLine: u64, length: u64) | Rejected(error: int)

  function LayoutOfLines(lineBytes: u64, height: u32): Layout {
    if lineBytes == 0 || height > (U64_SPAN - 1) / lineBytes then Rejected(-EOVERFLOW)
    else
      var length := lineBytes * height % U64_SPAN;
      if length == 0 || length > U32_MAX then Rejected(-EOVERFLOW) else Layout(lineBytes, length)
  }

  /** gud_format_frame_layout, with size_t of 64 bits. */
  function FormatFrameLayout(width: u32, height: u32, format: Format): Layout {
    var bpp := BytesPerPixel(format);
    if bpp == 0 || width == 0 || height == 0 then Rejected(-EINVAL)
    else if width > (U64_SPAN - 1) / bpp then Rejected(-EOVERFLOW)
    else LayoutOfLines(width * bpp % U64_SPAN, height)
  }

  /** The size of a row and of the frame as numbers, without any width. */
  function LineBytes(width: nat, format: Format): (n: nat)
    ensures format.Rgb565? ==> n == 2 * width
    ensures format.Xrgb8888? ==> n == 4 * width
    ensures format.Unsupported? ==> n == 0
  {
    width * BytesPerPixel(format)
  }

  function FrameBytes(width: nat, height: nat, format: Format): nat {
    ProductNonNegative(LineBytes(width, format), height);
    LineBytes(width, format) * height
  }

  lemma LinesAreExact(lineBytes: u64, height: u32)
    requires lineBytes > 0 && height > 0
    ensures lineBytes * height > 0
    ensures LayoutOfLines(lineBytes, height)
         == if lineBytes * height > U32_MAX then Rejected(-EOVERFLOW) else Layout(lineBytes, lineBytes * height)
  {
    ScaleUp(height, lineBytes);
    QuotientAtLeast(U64_SPAN - 1, lineBytes, height);
    var length := lineBytes * height;
    if length < U64_SPAN {
      assert length % U64_SPAN == length;
    }
  }

  lemma ByLines(width: u32, height: u32, format: Format)
    requires width > 0 && height > 0 && !format.Unsupported?
    ensures 0 < LineBytes(width, format) < U64_SPAN
    ensures FormatFrameLayout(width, height, format) == LayoutOfLines(LineBytes(width, format), height)
  {
    match format
    case Rgb565 => assert width * 2 % U64_SPAN == width * 2;
    case Xrgb8888 => assert width * 4 % U64_SPAN == width * 4;
  }

  /** Nothing wraps: the layout is the exact size, and fails exactly for empty, unsupported or over-large frames. */
  lemma LayoutIsExact(width: u32, height: u32, format: Format)
    ensures var n, r := FrameBytes(width, height, format), FormatFrameLayout(width, height, format);
            if n == 0 then r == Rejected(-EINVAL)
            else if n > U32_MAX then r == Rejected(-EOVERFLOW)
            else r == Layout(LineBytes(width, format), n)
  {
    if width > 0 && height > 0 && !format.Unsupported? {
      ByLines(width, height, format);
      LinesAreExact(LineBytes(width, format), height);
    } else {
      assert FrameBytes(width, height, format) == 0;
    }
  }

  datatype Framebuffer = Framebuffer(width: u32, height: u32, format: Format)

  /** The bytes of a framebuffer that has a layout. */
  function LengthOf(fb: Framebuffer): nat {
    var layout := FormatFrameLayout(fb.width, fb.height, fb.format);
    if layout.Layout? then layout.length else 0
  }

  /** gud_validate_framebuffer_range; the guard keeps the subtraction from wrapping. */
  function ValidateRange(offset: u64, length: u64, mapped: u64): int {
    if offset > mapped || length > mapped - offset then -EINVAL else 0
  }

  /** Accepted exactly when the frame lies inside the mapping, in plain arithmetic. */
  lemma RangeIsExact(offset: u64, length: u64, mapped: u64)
    ensures ValidateRange(offset, length, mapped) == if offset + length <= mapped then 0 else -EINVAL
  {
  }

  // ---------------------------------------------------------------- framebuffer creation

  const ENOENT: int := 2

  datatype Command = Command(
    width: u32, height: u32, format: Format,
    handles: (u32, u32, u32, u32), pitches: (u32, u32, u32, u32),
    offsets: (u32, u32, u32, u32), modifiers: (u64, u64, u64, u64))

  predicate OnePlane(c: Command) {
    && c.handles.1 == c.handles.2 == c.handles.3 == 0
    && c.pitches.1 == c.pitches.2 == c.pitches.3 == 0
    && c.offsets.1 == c.offsets.2 == c.offsets.3 == 0
    && c.modifiers.1 == c.modifiers.2 == c.modifiers.3 == 0
  }

  /** The bytes before the last row; None when the wrap-around test fires. */
  function RowsBytes(height: u32, pitch: u32): Option<u64>
    requires height > 0
  {
    if height == 1 then Some(0)
    else
      ProductNonNegative(height - 1, pitch);
      var rowsBytes := (height - 1) * pitch % U64_SPAN;
      if pitch != 0 && rowsBytes / pitch != height - 1 then None else Some(rowsBytes)
  }

  predicate EndsInside(offset: u32, rowsBytes: u64, lineBytes: u64, size: u64) {
    var minSize := (offset + rowsBytes) % U64_SPAN;
    var end := (minSize + lineBytes) % U64_SPAN;
    !(minSize < offset || end < minSize || end > size)
  }

  /** gud_fb_create up to the allocation: 0 or an error. `backing` is the size of the object behind the handle. */
  function FbCreate(c: Command, backing: Option<u64>): int {
    var pitch := c.pitches.0;
    if c.width == 0 || c.height == 0 || c.handles.0 == 0 || c.format.Unsupported? then -EINVAL
    else if !OnePlane(c) || c.modifiers.0 != 0 then -EINVAL
    else
      var lineBytes := c.width * BytesPerPixel(c.format) % U64_SPAN;
      if lineBytes > U32_MAX || pitch < lineBytes || RowsBytes(c.height, pitch).None? then -EINVAL
      else if backing.None? then -ENOENT
      else if EndsInside(c.offsets.0, RowsBytes(c.height, pitch).value, lineBytes, backing.value) then 0
      else -EINVAL
  }

  lemma RowsNeverWrap(height: u32, pitch: u32)
    requires height > 0
    ensures 0 <= (height - 1) * pitch <= (U32_MAX - 1) * U32_MAX
    ensures RowsBytes(height, pitch) == Some((height - 1) * pitch)
  {
    var rows := height - 1;
    ProductNonNegative(rows, pitch);
    ScaleMonotone(pitch, rows, U32_MAX - 1);
    assert pitch * rows == rows * pitch;
    assert rows * pitch < U64_SPAN;
    if pitch > 0 {
      DivModUnique(rows * pitch, pitch, rows, 0);
    }
  }

  lemma EndNeverWraps(offset: u32, rowsBytes: u64, lineBytes: u64, size: u64)
    requires rowsBytes <= (U32_MAX - 1) * U32_MAX && lineBytes <= U32_MAX
    ensures EndsInside(offset, rowsBytes, lineBytes, size) <==> offset + rowsBytes + lineBytes <= size
  {
  }

  /** The wrap-around tests in it never decide anything: acceptance means the last row ends inside the object. */
  lemma FbCreateAccepts(c: Command, backing: Option<u64>)
    ensures FbCreate(c, backing) == 0 <==>
            && c.width > 0 && c.height > 0 && c.handles.0 != 0 && !c.format.Unsupported?
            && c.handles == (c.handles.0, 0, 0, 0) && c.pitches == (c.pitches.0, 0, 0, 0)
            && c.offsets == (c.offsets.0, 0, 0, 0) && c.modifiers == (0, 0, 0, 0)
            && LineBytes(c.width, c.format) <= c.pitches.0
            && backing.Some?
            && c.offsets.0 + (c.height - 1) * c.pitches.0 + LineBytes(c.width, c.format) <= backing.value
    ensures FbCreate(c, backing) == -ENOENT <==>
            && c.width > 0 && c.height > 0 && c.handles.0 != 0 && !c.format.Unsupported?
            && c.handles == (c.handles.0, 0, 0, 0) && c.pitches == (c.pitches.0, 0, 0, 0)
            && c.offsets == (c.offsets.0, 0, 0, 0) && c.modifiers == (0, 0, 0, 0)
            && LineBytes(c.width, c.format) <= c.pitches.0
            && backing.None?
    ensures FbCreate(c, backing) in {0, -ENOENT, -EINVAL}
  {
    var line := LineBytes(c.width, c.format);
    assert 0 <= line < U64_SPAN && line % U64_SPAN == line;
    if c.height > 0 {
      RowsNeverWrap(c.height, c.pitches.0);
    }
    if c.height > 0 && backing.Some? {
      var rowsBytes := RowsBytes(c.height, c.pitches.0).value;
      if line <= U32_MAX {
        EndNeverWraps(c.offsets.0, rowsBytes, line, backing.value);
      }
    }
  }

  /** The pitch test of gud_pipe_check: its product is computed in 32 bits. */
  predicate TightPitch(c: Command) {
    c.pitches.0 == LineBytes(c.width, c.format) % U32_SPAN
  }

  /**
   * An accepted framebuffer with the pitch the atomic check requires and a layout always passes range
   * validation against its object, and every row read lies inside the mapping. Its layout fails only
   * for frames beyond 4 GiB.
   */
  lemma AcceptedIsInRange(c: Command, size: u64)
    requires FbCreate(c, Some(size)) == 0 && TightPitch(c)
    ensures match FormatFrameLayout(c.width, c.height, c.format)
            case Rejected(e) => e == -EOVERFLOW && FrameBytes(c.width, c.height, c.format) > U32_MAX
            case Layout(line, length) =>
              && ValidateRange(c.offsets.0, length, size) == 0
              && forall y :: 0 <= y < c.height ==> 0 <= line * y && c.offsets.0 + line * y + line <= size
  {
    var line := LineBytes(c.width, c.format);
    FbCreateAccepts(c, Some(size));
    LayoutIsExact(c.width, c.height, c.format);
    assert line == c.pitches.0;
    RowsInside(line, c.height);
  }

  lemma RowsInside(line: nat, height: nat)
    requires line > 0 && height > 0
    ensures (height - 1) * line + line == line * height > 0
    ensures forall y :: 0 <= y < height ==> 0 <= line * y && line * y + line <= line * height
  {
    ScaleUp(height, line);
    assert (height - 1) * line + line == line * height;
    forall y | 0 <= y < height
      ensures 0 <= line * y && line * y + line <= line * height
    {
      ProductNonNegative(line, y);
      ScaleMonotone(line, y + 1, height);
      assert line * (y + 1) == line * y + line;
    }
  }

  // ---------------------------------------------------------------- transfer capacity

  /** The bytes of a whole frame at four per pixel, in 64 bits. */
  function WholeFrame(maxWidth: u32, maxHeight: u32): u64 {
    ProductNonNegative(maxWidth, maxHeight);
    (maxWidth * maxHeight % U64_SPAN) * 4 % U64_SPAN
  }

  /** gud_xdisp_buffers_init: the byte budget of one rectangle, which is also the size of the bulk buffer. */
  function BuffersInit(maxBufferSize: u32, maxWidth: u32, maxHeight: u32): (r: Layout) {
    var bytesPerLine := maxWidth * 4 % U64_SPAN;
    if maxBufferSize == 0 || maxBufferSize > MAX_PAYLOAD_LIMIT then Rejected(-EINVAL)
    else if bytesPerLine > maxBufferSize then Rejected(-E2BIG)
    else
      var maxSourceLength := Min(maxBufferSize, WholeFrame(maxWidth, maxHeight));
      if maxSourceLength < bytesPerLine then Rejected(-EINVAL) else Layout(bytesPerLine, maxSourceLength)
  }

  lemma WholeFrameIsExact(maxWidth: u32, maxHeight: u32)
    requires 0 < maxWidth <= MAX_PAYLOAD_LIMIT && maxHeight > 0
    ensures WholeFrame(maxWidth, maxHeight) == 4 * (maxWidth * maxHeight) >= 4 * maxWidth
  {
    ScaleMonotone(maxHeight, maxWidth, MAX_PAYLOAD_LIMIT);
    ScaleUp(maxWidth, maxHeight);
    var n := maxWidth * maxHeight;
    assert 0 <= n < U64_SPAN && 0 <= n * 4 < U64_SPAN;
  }

  /** The size product does not wrap: the budget is the smaller of the descriptor's and the whole frame's. */
  lemma BudgetIsExact(maxBufferSize: u32, maxWidth: u32, maxHeight: u32)
    ensures match BuffersInit(maxBufferSize, maxWidth, maxHeight)
            case Layout(line, budget) =>
              && 0 < maxBufferSize <= 0x400_0000 && line == 4 * maxWidth <= maxBufferSize
              && budget == Min(maxBufferSize, 4 * (maxWidth * maxHeight)) && line <= budget
            case Rejected(e) =>
              if maxBufferSize == 0 || maxBufferSize > 0x400_0000 then e == -EINVAL
              else if 4 * maxWidth > maxBufferSize then e == -E2BIG
              else e == -EINVAL && maxHeight == 0 < maxWidth
  {
    assert maxWidth * 4 % U64_SPAN == 4 * maxWidth;
    if 0 < maxWidth <= MAX_PAYLOAD_LIMIT && maxHeight > 0 {
      WholeFrameIsExact(maxWidth, maxHeight);
    }
  }

  /** Complete rows that one rectangle may hold. */
  function MaxRows(budget: nat, line: nat, length: nat): nat
    requires line > 0
  {
    Min(budget, length) / line
  }

  lemma MaxRowsBounds(budget: nat, line: nat, height: nat)
    requires 0 < line <= budget && height > 0
    ensures var n := MaxRows(budget, line, line * height);
            1 <= n <= height && forall rows :: 0 < rows <= n ==> 0 < line * rows <= budget
  {
    ScaleUp(line, height);
    var cap := Min(budget, line * height);
    QuotientAtLeast(cap, line, 1);
    QuotientAtLeast(cap, line, height + 1);
    assert line * (height + 1) == line * height + line;
    forall rows | 0 < rows <= cap / line
      ensures 0 < line * rows <= budget
    {
      QuotientAtLeast(cap, line, rows);
      ScaleUp(line, rows);
    }
  }

  /** One more row would not fit, or the frame has no more. */
  lemma MaxRowsIsMost(budget: nat, line: nat, height: nat)
    requires 0 < line && height > 0
    ensures var n := MaxRows(budget, line, line * height); n >= height || line * (n + 1) > budget
  {
    var cap := Min(budget, line * height);
    ScaleMonotone(line, 0, height);
    var n := cap / line;
    QuotientAtLeast(cap, line, n + 1);
    QuotientAtLeast(cap, line, height);
  }

  /**
   * Once the buffers are set up, a mode no wider than the maximum always has room for a row, and every
   * rectangle of at most MaxRows rows fits the budget and the 32-bit request fields.
   */
  lemma RectanglesFit(maxBufferSize: u32, maxWidth: u32, maxHeight: u32, width: u32, height: u32, format: Format)
    requires maxWidth > 0 && maxHeight > 0 && width <= maxWidth
    requires BuffersInit(maxBufferSize, maxWidth, maxHeight).Layout? && FormatFrameLayout(width, height, format).Layout?
    ensures var budget := BuffersInit(maxBufferSize, maxWidth, maxHeight).length;
            var layout := FormatFrameLayout(width, height, format);
            var line := layout.bytesPerLine;
            && 0 < line <= budget <= MAX_PAYLOAD_LIMIT
            && 1 <= MaxRows(budget, line, layout.length) <= height
            && forall rows :: 0 < rows <= MaxRows(budget, line, layout.length) ==> 0 < line * rows <= budget
  {
    BudgetIsExact(maxBufferSize, maxWidth, maxHeight);
    LayoutIsExact(width, height, format);
    var line := LineBytes(width, format);
    assert 0 < line <= 4 * width;
    MaxRowsBounds(BuffersInit(maxBufferSize, maxWidth, maxHeight).length, line, height);
  }
}
