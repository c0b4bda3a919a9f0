/**
 * Frame sizes and the NV12 output of test.c. A frame in memory is a plane of luma rows followed by
 * a plane of half as many interleaved chroma rows, both padded and strided; a frame on file is the active region alone.
 */
module Nv12 {
  import opened Arithmetic
  import opened Words

  const PADX: nat := 32
  const PADY: nat := 24

  // ----- sizes -----

  /**
   * ALIGN2(x, 4) and ALIGN2(x, 7) as computed on 32-bit words: unless the sum wraps around, masking gives the least
   * multiple that is not smaller.
   */
  lemma MaskingIsLeast(x: bv32)
    requires x <= 0xffff_ff80
    ensures var a := (x + 15) & !15; x <= a && a - x < 16 && a % 16 == 0
    ensures var b := (x + 127) & !127; x <= b && b - x < 128 && b % 128 == 0
  {
  }

  /** The same on unbounded numbers, by counting up in steps of n. */
  function Align(x: nat, n: nat): (a: nat)
    requires n > 0
    ensures x <= a < x + n
    ensures x > 0 ==> a >= n
  {
    if x == 0 then 0 else if x <= n then n else n + Align(x - n, n)
  }

  lemma {:induction false} AlignIsMultiple(x: nat, n: nat)
    requires n > 0
    ensures Align(x, n) % n == 0
  {
    if x > n {
      AlignIsMultiple(x - n, n);
      var q := Align(x - n, n) / n;
      RemainderUnique(Align(x, n), n, q + 1, 0);
    } else {
      RemainderUnique(Align(x, n), n, if x == 0 then 0 else 1, 0);
    }
  }

  lemma {:induction false} AlignIsEven(x: nat, n: nat)
    requires n > 0 && n % 2 == 0
    ensures Align(x, n) % 2 == 0
  {
    if x > n {
      AlignIsEven(x - n, n);
      var a := Align(x - n, n);
      RemainderUnique(Align(x, n), 2, n / 2 + a / 2, 0);
    }
  }

  /** A C int: 32 bits, two's complement. */
  function ToInt32(x: int): (r: int)
    ensures -0x8000_0000 <= r < 0x8000_0000
  {
    (x + 0x8000_0000) % 0x1_0000_0000 - 0x8000_0000
  }

  /** It differs from the number by a multiple of 2^32. */
  lemma Int32Wraps(x: int)
    ensures exists q: int :: ToInt32(x) == x - q * 0x1_0000_0000
  {
    var q := (x + 0x8000_0000) / 0x1_0000_0000;
    assert ToInt32(x) == x - q * 0x1_0000_0000;
  }

  /** C division truncates toward zero. */
  function Quotient(a: nat, b: int): int
    requires b != 0
  {
    if b > 0 then a / b else -(a / -b)
  }

  datatype Option<T> = None | Some(value: T)

  /** The number of macroblocks of rounded dimensions, as an int. */
  function Macroblocks(width: nat, height: nat): int {
    ToInt32((width / 16) * (height / 16))
  }

  /** num_buffers for rounded dimensions; None is a division by zero. */
  function NumBuffers(width: nat, height: nat): Option<int> {
    var blocks := Macroblocks(width, height);
    if blocks == 0 then None
    else
      var q := Quotient(32768, blocks);
      Some((if 16 < q then 16 else q) + 3)
  }

  /**
   * There are between 3 and 19 buffers, as the 20-entry ID arrays need, exactly when the 32-bit count of
   * macroblocks is positive or far below zero.
   */
  lemma NumBuffersInRangeIff(width: nat, height: nat)
    ensures (exists n :: NumBuffers(width, height) == Some(n) && 3 <= n <= 19)
      <==> Macroblocks(width, height) > 0 || Macroblocks(width, height) < -32768
  {
    var blocks := Macroblocks(width, height);
    if blocks > 0 {
      DivisionBounds(32768, blocks);
      var n :| NumBuffers(width, height) == Some(n);
    } else if blocks < -32768 {
      DivisionBounds(32768, -blocks);
      assert NumBuffers(width, height) == Some(3);
    } else if blocks < 0 {
      DivisionBounds(32768, -blocks);
    }
  }

  /**
   * The number itself, in the largest terms that do not divide: with b macroblocks, 16 buffers or as many as hold at most
   * 32768 macroblocks, and three more. Counts far below zero give three.
   */
  lemma NumBuffersIs(width: nat, height: nat, n: int)
    requires NumBuffers(width, height) == Some(n)
    ensures var b := (width / 16) * (height / 16);
      0 < b < 0x8000_0000 ==> 3 <= n <= 19 && (n - 3) * b <= 32768 && (n == 19 || (n - 2) * b > 32768)
    ensures Macroblocks(width, height) < -32768 ==> n == 3
  {
    var b := (width / 16) * (height / 16);
    if 0 < b < 0x8000_0000 {
      SmallIntIsItself(b);
      CappedQuotient(b, 32768 / b);
    }
    if Macroblocks(width, height) < -32768 {
      DivisionBounds(32768, -Macroblocks(width, height));
    }
  }

  lemma CappedQuotient(b: nat, q: int)
    requires b > 0 && q == 32768 / b
    ensures q >= 0
    ensures var m := if 16 < q then 16 else q; m * b <= 32768 && (m == 16 || (m + 1) * b > 32768)
  {
    QuotientBounds(32768, b);
    if 16 < q {
      AtMost(16, q, b);
    }
  }

  /** n / b times b is the most that does not exceed n. */
  lemma QuotientBounds(n: nat, b: nat)
    requires b > 0
    ensures n / b * b <= n < (n / b + 1) * b
  {
    var q, r := n / b, n % b;
    assert n == q * b + r;
  }

  lemma AtMost(p: nat, q: nat, b: nat)
    ensures p <= q ==> p * b <= q * b
  {
    if p <= q {
      assert q * b == p * b + (q - p) * b;
    }
  }

  /** n / b is zero exactly when b is larger. */
  lemma DivisionBounds(n: nat, b: nat)
    requires b > 0
    ensures 0 <= n / b
    ensures n / b == 0 <==> n < b
  {
    var q, r := n / b, n % b;
    assert n == q * b + r;
    if q >= 1 {
      AtLeastOnce(q, b);
    }
  }

  /** Rounded dimensions whose macroblocks an int can count are in range. */
  lemma OrdinaryFramesInRange(width: nat, height: nat)
    requires width >= 16 && height >= 16 && (width / 16) * (height / 16) < 0x8000_0000
    ensures Macroblocks(width, height) > 0
    ensures exists n :: NumBuffers(width, height) == Some(n) && 3 <= n <= 19
  {
    assert width / 16 >= 1 && height / 16 >= 1;
    AtLeastOnce(width / 16, height / 16);
    SmallIntIsItself((width / 16) * (height / 16));
    NumBuffersInRangeIff(width, height);
  }

  lemma SmallIntIsItself(x: nat)
    requires x < 0x8000_0000
    ensures ToInt32(x) == x
  {
  }

  /** 2^20 by 2^20: the count wraps to zero and the program divides by it. */
  lemma HugeFramesDivideByZero()
    ensures NumBuffers(0x10_0000, 0x10_0000) == None
  {
    var blocks: int := 0x1_0000;
    assert 0x10_0000 / 16 == blocks && blocks * blocks == 0x1_0000_0000;
    assert ToInt32(0x1_0000_0000) == 0;
  }

  // ----- writing a frame out -----

  /** n * s, by addition (TimesIs): indices into rows stay linear for the proofs. */
  function Times(n: nat, s: nat): nat {
    if n == 0 then 0 else Times(n - 1, s) + s
  }

  lemma {:induction false} TimesIs(n: nat, s: nat)
    ensures Times(n, s) == n * s
  {
    if n > 0 {
      TimesIs(n - 1, s);
    }
  }

  lemma {:induction false} TimesPlus(a: nat, b: nat, s: nat)
    ensures Times(a + b, s) == Times(a, s) + Times(b, s)
  {
    if b > 0 {
      TimesPlus(a, b - 1, s);
    }
  }

  /** Where row i begins. */
  function RowStart(start: nat, stride: nat, i: nat): nat {
    start + Times(i, stride)
  }

  lemma RowStartMonotone(start: nat, stride: nat, i: nat, j: nat)
    requires i <= j
    ensures RowStart(start, stride, i) <= RowStart(start, stride, j)
  {
    TimesPlus(i, j - i, stride);
  }

  /** n rows of the given width end inside memory. */
  predicate RowsInside(size: nat, start: nat, stride: nat, width: nat, n: nat) {
    n > 0 ==> RowStart(start, stride, n - 1) + width <= size
  }

  lemma RowInside(size: nat, start: nat, stride: nat, width: nat, n: nat, i: nat)
    requires RowsInside(size, start, stride, width, n) && i < n
    ensures RowStart(start, stride, i) + width <= size
    ensures RowsInside(size, start, stride, width, i)
  {
    RowStartMonotone(start, stride, i, n - 1);
    if i > 0 {
      RowStartMonotone(start, stride, i - 1, n - 1);
    }
  }

  /** The first n rows, one behind the other. */
  function Rows(m: seq<Byte>, start: nat, stride: nat, width: nat, n: nat): seq<Byte>
    requires RowsInside(|m|, start, stride, width, n)
  {
    if n == 0 then []
    else
      RowInside(|m|, start, stride, width, n, n - 1);
      var p := RowStart(start, stride, n - 1);
      Rows(m, start, stride, width, n - 1) + m[p..p + width]
  }

  lemma {:induction false} RowsLength(m: seq<Byte>, start: nat, stride: nat, width: nat, n: nat)
    requires RowsInside(|m|, start, stride, width, n)
    ensures |Rows(m, start, stride, width, n)| == Times(n, width)
  {
    if n > 0 {
      RowInside(|m|, start, stride, width, n, n - 1);
      RowsLength(m, start, stride, width, n - 1);
    }
  }

  /** Byte `at` of the output is byte `from` of memory. */
  predicate Copied(out: seq<Byte>, m: seq<Byte>, at: nat, from: nat) {
    at < |out| && from < |m| && out[at] == m[from]
  }

  lemma CopiedBehind(before: seq<Byte>, out: seq<Byte>, after: seq<Byte>, m: seq<Byte>, at: nat, from: nat)
    requires Copied(out, m, at, from)
    ensures Copied(before + out, m, |before| + at, from)
    ensures Copied(out + after, m, at, from)
  {
  }

  /** Column c of row r, wherever it is in memory, is byte r * width + c of the rows. */
  lemma {:induction false} RowsPixel(m: seq<Byte>, start: nat, stride: nat, width: nat, n: nat, r: nat, c: nat)
    requires RowsInside(|m|, start, stride, width, n) && r < n && c < width
    ensures Copied(Rows(m, start, stride, width, n), m, Times(r, width) + c, RowStart(start, stride, r) + c)
    decreases n
  {
    RowInside(|m|, start, stride, width, n, r);
    RowInside(|m|, start, stride, width, n, n - 1);
    RowsLength(m, start, stride, width, n - 1);
    if r < n - 1 {
      RowsPixel(m, start, stride, width, n - 1, r, c);
    }
  }

  /** The same when other output stands before and behind the rows. */
  lemma CopiedRow(m: seq<Byte>, start: nat, stride: nat, width: nat, n: nat, r: nat, c: nat,
                  before: seq<Byte>, after: seq<Byte>, at: nat, from: nat)
    requires RowsInside(|m|, start, stride, width, n) && r < n && c < width
    requires at == |before| + Times(r, width) + c && from == RowStart(start, stride, r) + c
    ensures Copied(before + Rows(m, start, stride, width, n) + after, m, at, from)
  {
    var rows := Rows(m, start, stride, width, n);
    RowsPixel(m, start, stride, width, n, r, c);
    CopiedBehind(before, rows, after, m, at - |before|, from);
    CopiedBehind([], before + rows, after, m, at, from);
  }

  /** write(2): some of the bytes, or an error; `wish` is what the outside would like to happen. */
  function Accepted(wish: int, len: nat): (n: int)
    ensures n <= len
  {
    if wish < len then wish else len
  }

  /** Every call of write takes at least a byte. */
  ghost predicate NoFailure(wishes: seq<int>) {
    forall k :: 0 <= k < |wishes| ==> wishes[k] > 0
  }

  /** The inner loop: a row goes out in as many pieces as write makes of it, or in part if it fails. */
  method WriteRow(m: array<Byte>, p: nat, width: nat, wishes: seq<int>, used: nat, out: seq<Byte>)
    returns (n: nat, used': nat, out': seq<Byte>)
    requires p + width <= m.Length
    ensures n <= width && out' == out + m[..][p..p + n]
    ensures NoFailure(wishes) ==> n == width
  {
    ghost var img := m[..];
    out', used' := out, used;
    var at: nat, len: nat := p, width;
    while len != 0
      invariant p <= at <= p + width && at + len == p + width
      invariant out' == out + img[p..at]
      decreases len
    {
      var k := Accepted(if used' < |wishes| then wishes[used'] else len, len);
      used' := used' + 1;
      if k <= 0 {
        assert wishes[used' - 1] <= 0;
        break;
      }
      SliceJoined(out, img, p, at, at + k);
      out' := out' + m[at..at + k];
      at := at + k;
      len := len - k;
    }
    n := at - p;
  }

  lemma SliceJoined(out: seq<Byte>, m: seq<Byte>, a: nat, b: nat, c: nat)
    requires a <= b <= c <= |m|
    ensures out + m[a..b] + m[b..c] == out + m[a..c]
  {
    assert m[a..b] + m[b..c] == m[a..c];
  }

  lemma RowsStep(m: seq<Byte>, start: nat, stride: nat, width: nat, i: nat)
    requires RowsInside(|m|, start, stride, width, i) && RowStart(start, stride, i) + width <= |m|
    ensures var p := RowStart(start, stride, i);
      Rows(m, start, stride, width, i + 1) == Rows(m, start, stride, width, i) + m[p..p + width]
  {
  }

  /** Never more than everything, and nothing missing when all the bytes are counted. */
  ghost predicate UpTo(out: seq<Byte>, all: seq<Byte>) {
    |out| <= |all| && (|out| == |all| ==> out == all)
  }

  lemma UpToJoined(a: seq<Byte>, b: seq<Byte>, all: seq<Byte>, more: seq<Byte>)
    requires UpTo(a, all) && UpTo(b, more)
    ensures UpTo(a + b, all + more)
  {
  }

  /** After i rows: no more than them, and all of them unless a write failed. */
  ghost predicate Written(m: seq<Byte>, start: nat, stride: nat, width: nat, i: nat, wishes: seq<int>, out: seq<Byte>) {
    && RowsInside(|m|, start, stride, width, i)
    && UpTo(out, Rows(m, start, stride, width, i))
    && (NoFailure(wishes) ==> out == Rows(m, start, stride, width, i))
  }

  lemma RowWritten(m: seq<Byte>, start: nat, stride: nat, width: nat, i: nat, wishes: seq<int>, out: seq<Byte>, p: nat, n: nat)
    requires p == RowStart(start, stride, i) && p + width <= |m|
    requires Written(m, start, stride, width, i, wishes, out)
    requires n <= width && (NoFailure(wishes) ==> n == width)
    ensures Written(m, start, stride, width, i + 1, wishes, out + m[p..p + n])
  {
    RowsStep(m, start, stride, width, i);
    UpToJoined(out, m[p..p + n], Rows(m, start, stride, width, i), m[p..p + width]);
  }

  /** Row i, behind those before it. */
  method WriteNextRow(m: array<Byte>, ghost start: nat, ghost stride: nat, p: nat, width: nat, ghost i: nat,
                      wishes: seq<int>, used: nat, out: seq<Byte>)
    returns (n: nat, used': nat, out': seq<Byte>)
    requires p == RowStart(start, stride, i) && p + width <= m.Length
    requires Written(m[..], start, stride, width, i, wishes, out)
    ensures Written(m[..], start, stride, width, i + 1, wishes, out') && |out'| == |out| + n
  {
    n, used', out' := WriteRow(m, p, width, wishes, used, out);
    RowWritten(m[..], start, stride, width, i, wishes, out, p, n);
  }

  /** One of the two outer loops. */
  method WriteRows(m: array<Byte>, start: nat, stride: nat, width: nat, rows: nat, wishes: seq<int>, used: nat)
    returns (sz: nat, used': nat, out: seq<Byte>)
    requires RowsInside(m.Length, start, stride, width, rows)
    ensures sz == |out| && Written(m[..], start, stride, width, rows, wishes, out)
  {
    sz, used', out := 0, used, [];
    var p := start;
    var i := 0;
    while i < rows
      invariant i <= rows && p == RowStart(start, stride, i)
      invariant sz == |out| && Written(m[..], start, stride, width, i, wishes, out)
    {
      RowInside(m.Length, start, stride, width, rows, i);
      var n;
      n, used', out := WriteNextRow(m, start, stride, p, width, i, wishes, used', out);
      sz := sz + n;
      p := p + stride;
      i := i + 1;
    }
  }

  /** write_output: the luma rows from y, then half as many chroma rows from uv. The result tells whether all went out. */
  method WriteOutput(m: array<Byte>, y: nat, uv: nat, stride: nat, width: nat, height: nat, wishes: seq<int>)
    returns (sz: nat, out: seq<Byte>)
    requires RowsInside(m.Length, y, stride, width, height) && RowsInside(m.Length, uv, stride, width, height / 2)
    ensures sz == |out|
    ensures UpTo(out, Rows(m[..], y, stride, width, height) + Rows(m[..], uv, stride, width, height / 2))
    ensures NoFailure(wishes) ==> out == Rows(m[..], y, stride, width, height) + Rows(m[..], uv, stride, width, height / 2)
  {
    var used, n, more;
    sz, used, out := WriteRows(m, y, stride, width, height, wishes, 0);
    n, used, more := WriteRows(m, uv, stride, width, height / 2, wishes, used);
    UpToJoined(out, more, Rows(m[..], y, stride, width, height), Rows(m[..], uv, stride, width, height / 2));
    sz, out := sz + n, out + more;
  }

  // ----- the active region -----

  /** The globals of main after sizing. */
  datatype Layout = Layout(width: nat, height: nat, paddedWidth: nat, paddedHeight: nat, stride: nat)

  /** From the dimensions on the command line; `oned` selects the linear layout. */
  function LayoutFor(width: nat, height: nat, oned: bool): Layout {
    var w, h := Align(width, 16), Align(height, 16);
    var pw := Align(w + 2 * PADX, 128);
    Layout(w, h, pw, h + 4 * PADY, if oned then pw else 4096)
  }

  /** 96 rows of padding, and rows of the least multiple of 128 bytes that has 64 bytes to spare. */
  lemma LayoutIs(width: nat, height: nat, oned: bool)
    ensures var l := LayoutFor(width, height, oned);
      && width <= l.width < width + 16 && l.width % 16 == 0 && height <= l.height < height + 16 && l.height % 16 == 0
      && l.paddedHeight == l.height + 96
      && l.width + 64 <= l.paddedWidth < l.width + 64 + 128 && l.paddedWidth % 128 == 0
      && l.stride == if oned then l.paddedWidth else 4096
  {
    AlignIsMultiple(width, 16);
    AlignIsMultiple(height, 16);
    AlignIsMultiple(Align(width, 16) + 64, 128);
  }

  /** What output_allocate allocates for a frame: both planes. */
  function FrameSize(l: Layout): nat {
    Times(l.paddedHeight, l.stride) + Times(l.paddedHeight / 2, l.stride)
  }

  /** Byte of a luma sample, and of a chroma sample, by row and column of their planes. */
  function YAt(l: Layout, row: nat, col: nat): nat {
    Times(row, l.stride) + col
  }

  function UvAt(l: Layout, row: nat, col: nat): nat {
    Times(l.paddedHeight, l.stride) + Times(row, l.stride) + col
  }

  /** In rows and columns: luma from the front, chroma behind paddedHeight rows, half as much again in all. */
  lemma PlanesAre(l: Layout, row: nat, col: nat)
    ensures YAt(l, row, col) == row * l.stride + col
    ensures UvAt(l, row, col) == l.paddedHeight * l.stride + row * l.stride + col
    ensures FrameSize(l) == l.paddedHeight * l.stride + l.paddedHeight / 2 * l.stride
  {
    TimesIs(row, l.stride);
    TimesIs(l.paddedHeight, l.stride);
    TimesIs(l.paddedHeight / 2, l.stride);
  }

  lemma InPlane(stride: nat, rows: nat, row: nat, col: nat)
    requires row < rows && col < stride
    ensures Times(row, stride) + col < Times(rows, stride)
  {
    TimesPlus(row, rows - row, stride);
  }

  /** Samples inside the padded frame are inside their own plane, and in nobody else's place. */
  lemma PlanesApart(l: Layout, row: nat, col: nat)
    requires col < l.stride
    ensures row < l.paddedHeight ==> YAt(l, row, col) < UvAt(l, 0, 0)
    ensures row < l.paddedHeight / 2 ==> UvAt(l, 0, 0) <= UvAt(l, row, col) < FrameSize(l)
  {
    if row < l.paddedHeight {
      InPlane(l.stride, l.paddedHeight, row, col);
    }
    if row < l.paddedHeight / 2 {
      InPlane(l.stride, l.paddedHeight / 2, row, col);
    }
  }

  /**
   * The chroma offset that main computes is that of the region's first pair of samples exactly when the corner is even:
   * pairs are shared by two rows and two columns, and main rounds neither.
   */
  lemma ChromaOffsetIff(stride: nat, left: nat, top: nat)
    requires stride > 0 && stride % 2 == 0
    ensures top * stride / 2 + left == Times(top / 2, stride) + 2 * (left / 2) <==> top % 2 == 0 && left % 2 == 0
  {
    HalfRow(stride, top);
  }

  /** An odd top row adds half a row. */
  lemma HalfRow(stride: nat, top: nat)
    requires stride % 2 == 0
    ensures top * stride / 2 == Times(top / 2, stride) + if top % 2 == 0 then 0 else stride / 2
  {
    var k, b := top / 2, top % 2;
    TimesIs(top, stride);
    TimesPlus(2 * k, b, stride);
    TimesPlus(k, k, stride);
    assert top == 2 * k + b && Times(1, stride) == stride;
  }

  predicate RegionFits(l: Layout, left: nat, top: nat) {
    left + l.width <= l.paddedWidth <= l.stride && top + l.height <= l.paddedHeight
  }

  /**
   * The file's bytes are the region's samples, luma then chroma, row by row. The chroma begins with the pair of samples
   * that covers the region's corner.
   */
  ghost predicate IsCrop(out: seq<Byte>, m: seq<Byte>, l: Layout, left: nat, top: nat)
    requires RegionFits(l, left, top) && FrameSize(l) <= |m|
  {
    && IsLumaCrop(out, m, l, left, top)
    && (forall r, c :: 0 <= r < l.height / 2 && 0 <= c < l.width ==> ChromaAt(out, m, l, left, top, r, c))
  }

  ghost predicate IsLumaCrop(out: seq<Byte>, m: seq<Byte>, l: Layout, left: nat, top: nat) {
    && |out| == Times(l.height, l.width) + Times(l.height / 2, l.width)
    && (forall r, c :: 0 <= r < l.height && 0 <= c < l.width ==> LumaAt(out, m, l, left, top, r, c))
  }

  predicate LumaAt(out: seq<Byte>, m: seq<Byte>, l: Layout, left: nat, top: nat, r: nat, c: nat) {
    Copied(out, m, Times(r, l.width) + c, YAt(l, top + r, left + c))
  }

  predicate ChromaAt(out: seq<Byte>, m: seq<Byte>, l: Layout, left: nat, top: nat, r: nat, c: nat) {
    Copied(out, m, Times(l.height, l.width) + Times(r, l.width) + c, UvAt(l, top / 2 + r, 2 * (left / 2) + c))
  }

  /** Where main has the luma rows begin: at the region's corner. */
  function LumaStart(l: Layout, left: nat, top: nat): nat {
    YAt(l, top, left)
  }

  /** Where main has the chroma rows begin. */
  function ChromaStart(l: Layout, left: nat, top: nat): nat {
    UvAt(l, top / 2, left) + if top % 2 == 0 then 0 else l.stride / 2
  }

  /** A layout of rounded dimensions with an even stride, and any region that fits. */
  predicate Croppable(l: Layout, left: nat, top: nat) {
    && l.width > 0 && l.height > 0 && l.height % 2 == 0
    && l.stride % 2 == 0 && l.paddedHeight % 2 == 0
    && RegionFits(l, left, top)
  }

  predicate EvenCorner(left: nat, top: nat) {
    left % 2 == 0 && top % 2 == 0
  }

  /** Either layout of a positive frame size is croppable; the tiled one as long as its padded rows fit the 4096 bytes. */
  lemma LayoutsCroppable(width: nat, height: nat, oned: bool, left: nat, top: nat)
    requires width > 0 && height > 0
    ensures var l := LayoutFor(width, height, oned);
      (oned || l.paddedWidth <= 4096) && left + l.width <= l.paddedWidth && top + l.height <= l.paddedHeight
      ==> Croppable(l, left, top)
  {
    AlignIsEven(Align(width, 16) + 2 * PADX, 128);
    AlignIsEven(height, 16);
  }

  /** The sample the r-th written row takes its c-th byte from. */
  lemma LumaSource(l: Layout, left: nat, top: nat, r: nat, c: nat)
    ensures RowStart(LumaStart(l, left, top), l.stride, r) + c == YAt(l, top + r, left + c)
  {
    TimesPlus(top, r, l.stride);
  }

  /** It is the region's for chroma, too, exactly when the corner is even. */
  lemma ChromaSourceIff(l: Layout, left: nat, top: nat, r: nat, c: nat)
    requires l.stride > 0 && l.stride % 2 == 0
    ensures RowStart(ChromaStart(l, left, top), l.stride, r) + c == UvAt(l, top / 2 + r, 2 * (left / 2) + c)
      <==> EvenCorner(left, top)
  {
    TimesPlus(top / 2, r, l.stride);
  }

  lemma LumaInside(l: Layout, left: nat, top: nat)
    requires Croppable(l, left, top)
    ensures RowsInside(FrameSize(l), LumaStart(l, left, top), l.stride, l.width, l.height)
  {
    var r, c := l.height - 1, l.width - 1;
    PlanesApart(l, top + r, left + c);
    LumaSource(l, left, top, r, c);
  }

  /** Even half a row further on, as for an odd top, the chroma rows end inside the frame. */
  lemma ChromaInside(l: Layout, left: nat, top: nat)
    requires Croppable(l, left, top)
    ensures RowsInside(FrameSize(l), ChromaStart(l, left, top), l.stride, l.width, l.height / 2)
  {
    var q, half := l.height / 2 - 1, l.paddedHeight / 2;
    var last := top / 2 + q;
    TimesPlus(top / 2, q, l.stride);
    if top % 2 == 0 {
      TimesPlus(last, half - last, l.stride);
      assert Times(half - last, l.stride) >= l.stride;
    } else {
      TimesPlus(last, half - last, l.stride);
      TimesPlus(2, half - last - 2, l.stride);
      assert Times(2, l.stride) == Times(1, l.stride) + l.stride && Times(1, l.stride) == l.stride;
    }
  }

  lemma RegionInside(l: Layout, left: nat, top: nat, size: nat)
    requires Croppable(l, left, top) && FrameSize(l) <= size
    ensures RowsInside(size, LumaStart(l, left, top), l.stride, l.width, l.height)
    ensures RowsInside(size, ChromaStart(l, left, top), l.stride, l.width, l.height / 2)
  {
    LumaInside(l, left, top);
    ChromaInside(l, left, top);
  }

  /** All that main writes of a frame. */
  function FrameOut(m: seq<Byte>, l: Layout, left: nat, top: nat): seq<Byte>
    requires Croppable(l, left, top) && FrameSize(l) <= |m|
  {
    RegionInside(l, left, top, |m|);
    Rows(m, LumaStart(l, left, top), l.stride, l.width, l.height)
    + Rows(m, ChromaStart(l, left, top), l.stride, l.width, l.height / 2)
  }

  lemma LumaCopied(m: seq<Byte>, l: Layout, left: nat, top: nat, r: nat, c: nat)
    requires Croppable(l, left, top) && FrameSize(l) <= |m| && r < l.height && c < l.width
    ensures LumaAt(FrameOut(m, l, left, top), m, l, left, top, r, c)
  {
    RegionInside(l, left, top, |m|);
    var y := LumaStart(l, left, top);
    var luma := Rows(m, y, l.stride, l.width, l.height);
    var chroma := Rows(m, ChromaStart(l, left, top), l.stride, l.width, l.height / 2);
    LumaSource(l, left, top, r, c);
    CopiedRow(m, y, l.stride, l.width, l.height, r, c, [], chroma, Times(r, l.width) + c, YAt(l, top + r, left + c));
    assert [] + luma + chroma == luma + chroma;
  }

  /** Where the chroma bytes come from, whatever the corner. */
  lemma ChromaCopied(m: seq<Byte>, l: Layout, left: nat, top: nat, r: nat, c: nat)
    requires Croppable(l, left, top) && FrameSize(l) <= |m| && r < l.height / 2 && c < l.width
    ensures Copied(FrameOut(m, l, left, top), m, Times(l.height, l.width) + Times(r, l.width) + c,
                   RowStart(ChromaStart(l, left, top), l.stride, r) + c)
  {
    RegionInside(l, left, top, |m|);
    var y, uv := LumaStart(l, left, top), ChromaStart(l, left, top);
    var luma := Rows(m, y, l.stride, l.width, l.height);
    var chroma := Rows(m, uv, l.stride, l.width, l.height / 2);
    RowsLength(m, y, l.stride, l.width, l.height);
    CopiedRow(m, uv, l.stride, l.width, l.height / 2, r, c, luma, [],
              Times(l.height, l.width) + Times(r, l.width) + c, RowStart(uv, l.stride, r) + c);
    assert luma + chroma + [] == luma + chroma;
  }

  lemma FrameOutLength(m: seq<Byte>, l: Layout, left: nat, top: nat)
    requires Croppable(l, left, top) && FrameSize(l) <= |m|
    ensures |FrameOut(m, l, left, top)| == Times(l.height, l.width) + Times(l.height / 2, l.width) == FileSize(l)
  {
    RegionInside(l, left, top, |m|);
    RowsLength(m, LumaStart(l, left, top), l.stride, l.width, l.height);
    RowsLength(m, ChromaStart(l, left, top), l.stride, l.width, l.height / 2);
    FileSizeIs(l);
  }

  /** The luma written is the region's, always. */
  lemma LumaIsCrop(m: seq<Byte>, l: Layout, left: nat, top: nat)
    requires Croppable(l, left, top) && FrameSize(l) <= |m|
    ensures IsLumaCrop(FrameOut(m, l, left, top), m, l, left, top)
  {
    FrameOutLength(m, l, left, top);
    forall r, c | 0 <= r < l.height && 0 <= c < l.width ensures LumaAt(FrameOut(m, l, left, top), m, l, left, top, r, c) {
      LumaCopied(m, l, left, top, r, c);
    }
  }

  /** With an even corner, what write_output writes is the crop of the active region. */
  lemma RowsAreCrop(m: seq<Byte>, l: Layout, left: nat, top: nat)
    requires Croppable(l, left, top) && FrameSize(l) <= |m| && EvenCorner(left, top)
    ensures IsCrop(FrameOut(m, l, left, top), m, l, left, top)
  {
    var out := FrameOut(m, l, left, top);
    LumaIsCrop(m, l, left, top);
    forall r, c | 0 <= r < l.height / 2 && 0 <= c < l.width ensures ChromaAt(out, m, l, left, top, r, c) {
      ChromaSourceIff(l, left, top, r, c);
      ChromaCopied(m, l, left, top, r, c);
    }
  }

  /** With an odd one, the first chroma byte on file is not the region's first: in this frame they differ. */
  function TellTale(l: Layout, left: nat, top: nat): (m: seq<Byte>)
    requires Croppable(l, left, top)
    ensures |m| == FrameSize(l)
  {
    seq(FrameSize(l), a requires 0 <= a < FrameSize(l) => if a == ChromaStart(l, left, top) then 1 else 0)
  }

  lemma OddCornerNoCrop(l: Layout, left: nat, top: nat)
    requires Croppable(l, left, top) && !EvenCorner(left, top)
    ensures var m := TellTale(l, left, top); !IsCrop(FrameOut(m, l, left, top), m, l, left, top)
  {
    var m := TellTale(l, left, top);
    var out := FrameOut(m, l, left, top);
    ChromaCopied(m, l, left, top, 0, 0);
    ChromaSourceIff(l, left, top, 0, 0);
    assert !ChromaAt(out, m, l, left, top, 0, 0);
  }

  /** What main writes is the crop, whatever the samples, if and only if the region's corner is even. */
  lemma CropIff(l: Layout, left: nat, top: nat)
    requires Croppable(l, left, top)
    ensures (forall m: seq<Byte> :: |m| == FrameSize(l) ==> IsCrop(FrameOut(m, l, left, top), m, l, left, top))
      <==> EvenCorner(left, top)
  {
    if EvenCorner(left, top) {
      forall m: seq<Byte> | |m| == FrameSize(l) ensures IsCrop(FrameOut(m, l, left, top), m, l, left, top) {
        RowsAreCrop(m, l, left, top);
      }
    } else {
      OddCornerNoCrop(l, left, top);
      assert |TellTale(l, left, top)| == FrameSize(l);
    }
  }

  /** A region that starts at row 1 would take its chroma from the middle of a row. */
  lemma OddTopMissed()
    ensures 1 * 4096 / 2 + 0 == 2048 && Times(1 / 2, 4096) + 2 * (0 / 2) == 0
  {
    ChromaOffsetIff(4096, 0, 1);
  }

  /** For an odd left column the first chroma byte on file, a U place, is the V sample of the region's first pair. */
  lemma OddLeftSwaps(m: seq<Byte>, l: Layout, left: nat, top: nat)
    requires Croppable(l, left, top) && FrameSize(l) <= |m| && left % 2 == 1 && top % 2 == 0
    ensures var u, v := UvAt(l, top / 2, left - 1), UvAt(l, top / 2, left);
      && u < v < |m| && Copied(FrameOut(m, l, left, top), m, Times(l.height, l.width), v)
      && (m[u] != m[v] ==> !IsCrop(FrameOut(m, l, left, top), m, l, left, top))
  {
    var out := FrameOut(m, l, left, top);
    ChromaCopied(m, l, left, top, 0, 0);
    if m[UvAt(l, top / 2, left - 1)] != m[UvAt(l, top / 2, left)] {
      assert !ChromaAt(out, m, l, left, top, 0, 0);
    }
  }

  /** Such a region: column 1 of a frame of 16 by 16, in the linear layout. */
  lemma OddLeftMissed(m: seq<Byte>, l: Layout)
    requires l == LayoutFor(16, 16, true) && |m| == FrameSize(l)
    ensures Croppable(l, 1, 0) && UvAt(l, 0, 0) < UvAt(l, 0, 1) < |m|
    ensures m[UvAt(l, 0, 0)] != m[UvAt(l, 0, 1)] ==> !IsCrop(FrameOut(m, l, 1, 0), m, l, 1, 0)
  {
    LayoutsCroppable(16, 16, true, 1, 0);
    OddLeftSwaps(m, l, 1, 0);
  }

  /** main's pointer arithmetic. */
  lemma OffsetsAreStarts(l: Layout, left: nat, top: nat)
    requires Croppable(l, left, top)
    ensures top * l.stride + left == LumaStart(l, left, top)
    ensures top * l.stride / 2 + left + l.stride * l.paddedHeight == ChromaStart(l, left, top)
  {
    TimesIs(top, l.stride);
    TimesIs(l.paddedHeight, l.stride);
    HalfRow(l.stride, top);
  }

  /** A frame on file: luma, and half as much chroma. */
  function FileSize(l: Layout): nat {
    l.width * l.height * 3 / 2
  }

  lemma FileSizeIs(l: Layout)
    requires l.height % 2 == 0
    ensures FileSize(l) == Times(l.height, l.width) + Times(l.height / 2, l.width)
  {
    var half := l.height / 2;
    TimesIs(l.height, l.width);
    TimesPlus(half, half, l.width);
    assert l.height == half + half;
    assert l.width * l.height == Times(l.height, l.width);
  }

  /** The pointers that main passes to write_output. */
  method Offsets(l: Layout, left: nat, top: nat) returns (y: nat, uv: nat)
    requires Croppable(l, left, top)
    ensures y == LumaStart(l, left, top) && uv == ChromaStart(l, left, top)
  {
    OffsetsAreStarts(l, left, top);
    var yoff := top * l.stride + left;
    var uvoff := top * l.stride / 2 + left;
    y, uv := yoff, uvoff + l.stride * l.paddedHeight;
  }

  /** Output that misses nothing is luma and chroma as FrameOut has them; any other is shorter than the file should be. */
  lemma CompleteIsCrop(m: seq<Byte>, l: Layout, left: nat, top: nat, out: seq<Byte>)
    requires Croppable(l, left, top) && FrameSize(l) <= |m|
    requires UpTo(out, FrameOut(m, l, left, top))
    ensures |out| <= FileSize(l)
    ensures |out| == FileSize(l) ==> IsLumaCrop(out, m, l, left, top)
    ensures |out| == FileSize(l) && EvenCorner(left, top) ==> IsCrop(out, m, l, left, top)
    ensures out == FrameOut(m, l, left, top) ==> |out| == FileSize(l)
  {
    FrameOutLength(m, l, left, top);
    LumaIsCrop(m, l, left, top);
    if EvenCorner(left, top) {
      RowsAreCrop(m, l, left, top);
    }
  }

  /** What a crop is, sample by sample, in plain terms. */
  lemma CropInPlainTerms(out: seq<Byte>, m: seq<Byte>, l: Layout, left: nat, top: nat, r: nat, c: nat)
    requires RegionFits(l, left, top) && FrameSize(l) <= |m| && IsCrop(out, m, l, left, top)
    requires EvenCorner(left, top) && r < l.height && c < l.width
    ensures |out| == l.width * l.height * 3 / 2 || l.height % 2 == 1
    ensures var at, from := r * l.width + c, (top + r) * l.stride + left + c;
      0 <= at < |out| && 0 <= from < |m| && out[at] == m[from]
    ensures r < l.height / 2 ==>
      var at := l.height * l.width + r * l.width + c;
      var from := l.paddedHeight * l.stride + (top / 2 + r) * l.stride + left + c;
      0 <= at < |out| && 0 <= from < |m| && out[at] == m[from]
  {
    PlanesAre(l, top + r, left + c);
    PlanesAre(l, top / 2 + r, left + c);
    TimesIs(r, l.width);
    TimesIs(l.height, l.width);
    assert LumaAt(out, m, l, left, top, r, c);
    if r < l.height / 2 {
      assert ChromaAt(out, m, l, left, top, r, c);
    }
    if l.height % 2 == 0 {
      FileSizeIs(l);
    }
  }

  /**
   * Writing one decoded buffer: every access is inside the buffer. Unless a write fails, width * height * 3 / 2 bytes
   * go out however write divides the rows, and whenever so many do, their luma is the active region's, and all of them
   * are exactly the active region if its corner is even (CropIff has the converse).
   */
  method ShowBuffer(m: array<Byte>, l: Layout, left: nat, top: nat, wishes: seq<int>)
    returns (sz: nat, out: seq<Byte>)
    requires Croppable(l, left, top) && FrameSize(l) <= m.Length
    ensures sz == |out| <= FileSize(l)
    ensures NoFailure(wishes) ==> sz == FileSize(l) && out == FrameOut(m[..], l, left, top)
    ensures sz == FileSize(l) ==> IsLumaCrop(out, m[..], l, left, top)
    ensures sz == FileSize(l) && EvenCorner(left, top) ==> IsCrop(out, m[..], l, left, top)
  {
    var y, uv := Offsets(l, left, top);
    RegionInside(l, left, top, m.Length);
    sz, out := WriteOutput(m, y, uv, l.stride, l.width, l.height, wishes);
    CompleteIsCrop(m[..], l, left, top, out);
  }
}
