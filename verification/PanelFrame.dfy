/** Packed frames: the conversion of a portrait wire frame into the panel's row order, and the
    notice drawn over a converted frame. A frame holds two 4-bit pixels a byte, the left one in
    the high half. */
module PanelFrame {
  import opened Bytes

  const PANEL_WIDTH := 800
  const PANEL_HEIGHT := 480
  const PAYLOAD_WIDTH := 480
  const PAYLOAD_HEIGHT := 800
  const PIXELS := 384000
  const FRAME_BYTES := 192000

  datatype Rotation = Rotate0 | Rotate180

  // ----- Packed pixels

  /** `readPacked4`. */
  function Pixel(data: seq<byte>, i: nat): (color: nat)
    requires i / 2 < |data|
  {
    if i % 2 == 0 then data[i / 2] / 16 else data[i / 2] % 16
  }

  /** `readPacked2`. */
  function Pixel2(data: seq<byte>, i: nat): (color: nat)
    requires i / 4 < |data|
    ensures color < 4
  {
    match i % 4
    case 0 => data[i / 4] / 64
    case 1 => data[i / 4] / 16 % 4
    case 2 => data[i / 4] / 4 % 4
    case _ => data[i / 4] % 4
  }

  function SetPixel(b: byte, left: bool, color: nat): byte
    requires color < 16
  {
    if left then b % 16 + 16 * color else b / 16 * 16 + color
  }

  /** `frame'` is `frame` with pixel `i` set to `color`. */
  ghost predicate OnePixelSet(frame: seq<byte>, frame': seq<byte>, i: nat, color: nat) {
    && |frame'| == |frame| && i / 2 < |frame|
    && Pixel(frame', i) == color
    && forall k: nat :: k / 2 < |frame| && k != i ==> Pixel(frame', k) == Pixel(frame, k)
  }

  lemma SetOnePixel(frame: seq<byte>, i: nat, color: nat)
    requires i / 2 < |frame| && color < 16
    ensures OnePixelSet(frame, frame[i / 2 := SetPixel(frame[i / 2], i % 2 == 0, color)], i, color)
  {
    var frame' := frame[i / 2 := SetPixel(frame[i / 2], i % 2 == 0, color)];
    forall k: nat | k / 2 < |frame| && k != i
      ensures Pixel(frame', k) == Pixel(frame, k)
    {
      if k / 2 == i / 2 { assert k % 2 != i % 2; }
    }
  }

  /** `writePacked4`: refused outside the buffer or for a color of more than four bits. */
  method WritePacked4(data: array<byte>, width: nat, x: nat, y: nat, color: nat) returns (ok: bool)
    modifies data
    ensures ok <==> y * (width / 2) + x / 2 < data.Length && color <= 0x0F
    ensures ok ==> OnePixelSet(old(data[..]), data[..], 2 * (y * (width / 2)) + x, color)
    ensures !ok ==> data[..] == old(data[..])
  {
    var index := y * (width / 2) + x / 2;
    if index >= data.Length || color > 0x0F { return false; }
    ghost var i := 2 * (y * (width / 2)) + x;
    assert i / 2 == index && i % 2 == x % 2;
    SetOnePixel(data[..], i, color);
    data[index] := SetPixel(data[index], x % 2 == 0, color);
    assert data[..] == old(data[..])[index := SetPixel(old(data[index]), x % 2 == 0, color)];
    ok := true;
  }

  lemma PanelPosition(px: nat, py: nat)
    requires px < PANEL_WIDTH && py < PANEL_HEIGHT
    ensures 2 * (py * (PANEL_WIDTH / 2)) + px == py * PANEL_WIDTH + px
    ensures py * (PANEL_WIDTH / 2) + px / 2 < FRAME_BYTES
  {
  }

  /** One pixel of the panel's buffer. */
  method WritePanelPixel(frame: array<byte>, px: nat, py: nat, color: nat) returns (ok: bool)
    requires px < PANEL_WIDTH && py < PANEL_HEIGHT && color < 16 && frame.Length == FRAME_BYTES
    modifies frame
    ensures ok && OnePixelSet(old(frame[..]), frame[..], py * PANEL_WIDTH + px, color)
  {
    PanelPosition(px, py);
    ok := WritePacked4(frame, PANEL_WIDTH, px, py, color);
  }

  // ----- Geometry

  /** `portraitToPhysical` of wire pixel `k`, as an index into the panel's rows. */
  function PanelIndex(rotation: Rotation, k: nat): (i: nat)
    requires k < PIXELS
    ensures i < PIXELS
  {
    var x, y := k % PAYLOAD_WIDTH, k / PAYLOAD_WIDTH;
    if rotation == Rotate0 then x * PANEL_WIDTH + (PANEL_WIDTH - 1 - y)
    else (PANEL_HEIGHT - 1 - x) * PANEL_WIDTH + y
  }

  /** The wire pixel shown at panel position `i`. */
  function WireIndex(rotation: Rotation, i: nat): (k: nat)
    requires i < PIXELS
    ensures k < PIXELS
  {
    var px, py := i % PANEL_WIDTH, i / PANEL_WIDTH;
    if rotation == Rotate0 then (PANEL_WIDTH - 1 - px) * PAYLOAD_WIDTH + py
    else px * PAYLOAD_WIDTH + (PANEL_HEIGHT - 1 - py)
  }

  lemma PanelRow(py: nat, px: nat)
    requires px < PANEL_WIDTH
    ensures (py * PANEL_WIDTH + px) / PANEL_WIDTH == py && (py * PANEL_WIDTH + px) % PANEL_WIDTH == px
  {
  }

  lemma WireRow(y: nat, x: nat)
    requires x < PAYLOAD_WIDTH
    ensures (y * PAYLOAD_WIDTH + x) / PAYLOAD_WIDTH == y && (y * PAYLOAD_WIDTH + x) % PAYLOAD_WIDTH == x
  {
  }

  /** The two orders are permutations of the same pixels: none is lost, none is drawn twice. */
  lemma IndicesInverse(rotation: Rotation, k: nat)
    requires k < PIXELS
    ensures WireIndex(rotation, PanelIndex(rotation, k)) == k
    ensures PanelIndex(rotation, WireIndex(rotation, k)) == k
  {
    var x, y := k % PAYLOAD_WIDTH, k / PAYLOAD_WIDTH;
    var px, py := k % PANEL_WIDTH, k / PANEL_WIDTH;
    if rotation == Rotate0 {
      PanelRow(x, PANEL_WIDTH - 1 - y);
      WireRow(PANEL_WIDTH - 1 - px, py);
    } else {
      PanelRow(PANEL_HEIGHT - 1 - x, y);
      WireRow(px, PANEL_HEIGHT - 1 - py);
    }
  }

  lemma RotationReverses(k: nat)
    requires k < PIXELS
    ensures PanelIndex(Rotate180, k) == PIXELS - 1 - PanelIndex(Rotate0, k)
  {
  }

  // ----- Conversion

  function WirePixel(wire: seq<byte>, indexed4: bool, k: nat): nat
    requires k < PIXELS && |wire| == PIXELS / (if indexed4 then 2 else 4)
  {
    if indexed4 then Pixel(wire, k) else Pixel2(wire, k)
  }

  /** Logical palette to controller palette. */
  function NativeColor(indexed4: bool, logical: nat): nat {
    if indexed4 then
      match logical
      case 0 => 0
      case 1 => 1
      case 2 => 6
      case 3 => 5
      case 4 => 3
      case 5 => 2
      case _ => 0xFF
    else
      match logical
      case 0 => 0
      case 1 => 1
      case 2 => 3
      case 3 => 2
      case _ => 1
  }

  predicate ValidColor(wire: seq<byte>, indexed4: bool, k: nat)
    requires k < PIXELS && |wire| == PIXELS / (if indexed4 then 2 else 4)
  {
    indexed4 ==> Pixel(wire, k) <= 5
  }

  ghost predicate ValidWire(wire: seq<byte>, indexed4: bool) {
    && |wire| == PIXELS / (if indexed4 then 2 else 4)
    && (forall k: nat :: k < PIXELS ==> ValidColor(wire, indexed4, k))
  }

  /** The first `count` wire pixels have valid colors and are drawn. */
  ghost predicate Drawn(wire: seq<byte>, indexed4: bool, rotation: Rotation, native: seq<byte>, count: nat) {
    && |wire| == PIXELS / (if indexed4 then 2 else 4) && |native| == FRAME_BYTES && count <= PIXELS
    && (forall k: nat :: k < count ==> ValidColor(wire, indexed4, k))
    && forall k: nat :: k < count ==>
         Pixel(native, PanelIndex(rotation, k)) == NativeColor(indexed4, WirePixel(wire, indexed4, k))
  }

  lemma DrawNext(wire: seq<byte>, indexed4: bool, rotation: Rotation,
                 native: seq<byte>, native': seq<byte>, count: nat)
    requires Drawn(wire, indexed4, rotation, native, count) && count < PIXELS
    requires ValidColor(wire, indexed4, count)
    requires OnePixelSet(native, native', PanelIndex(rotation, count),
                         NativeColor(indexed4, WirePixel(wire, indexed4, count)))
    ensures Drawn(wire, indexed4, rotation, native', count + 1)
  {
    forall k: nat | k < count
      ensures Pixel(native', PanelIndex(rotation, k)) == NativeColor(indexed4, WirePixel(wire, indexed4, k))
    {
      IndicesInverse(rotation, k);
      IndicesInverse(rotation, count);
    }
  }

  /** `convertWireFrameToNative`. */
  method ConvertWireFrame(wire: seq<byte>, indexed4: bool, rotation: Rotation, native: array<byte>)
      returns (ok: bool, invalidPalette: bool)
    modifies native
    ensures ok <==> native.Length == FRAME_BYTES && ValidWire(wire, indexed4)
    ensures ok ==> Drawn(wire, indexed4, rotation, native[..], PIXELS)
    ensures invalidPalette <==>
              && native.Length == FRAME_BYTES && |wire| == PIXELS / (if indexed4 then 2 else 4)
              && !ValidWire(wire, indexed4)
  {
    if |wire| != PIXELS / (if indexed4 then 2 else 4) || native.Length != FRAME_BYTES {
      return false, false;
    }
    for i := 0 to native.Length {
      native[i] := 0x11;
    }
    for y := 0 to PAYLOAD_HEIGHT
      invariant Drawn(wire, indexed4, rotation, native[..], y * PAYLOAD_WIDTH)
    {
      for x := 0 to PAYLOAD_WIDTH
        invariant Drawn(wire, indexed4, rotation, native[..], y * PAYLOAD_WIDTH + x)
      {
        ok := DrawPixel(wire, indexed4, rotation, native, x, y);
        if !ok { return false, true; }
      }
    }
    return true, false;
  }

  /** The body of the conversion loop: refuses a color outside the palette. */
  method DrawPixel(wire: seq<byte>, indexed4: bool, rotation: Rotation, native: array<byte>, x: nat, y: nat)
      returns (ok: bool)
    requires x < PAYLOAD_WIDTH && y < PAYLOAD_HEIGHT
    requires Drawn(wire, indexed4, rotation, native[..], y * PAYLOAD_WIDTH + x)
    modifies native
    ensures ok <==> ValidColor(wire, indexed4, y * PAYLOAD_WIDTH + x)
    ensures ok ==> Drawn(wire, indexed4, rotation, native[..], y * PAYLOAD_WIDTH + x + 1)
  {
    var pixel := y * PAYLOAD_WIDTH + x;
    WireRow(y, x);
    var logical := WirePixel(wire, indexed4, pixel);
    if indexed4 && logical > 5 { return false; }
    var px := if rotation == Rotate0 then PANEL_WIDTH - 1 - y else y;
    var py := if rotation == Rotate0 then x else PANEL_HEIGHT - 1 - x;
    ghost var before := native[..];
    ok := WritePanelPixel(native, px, py, NativeColor(indexed4, logical));
    DrawNext(wire, indexed4, rotation, before, native[..], pixel);
  }

  // ----- What a converted frame shows

  /** What the codes stand for. */
  datatype Color = Black | White | Green | Blue | Red | Yellow

  /** The color of a code in the server's four-bit palette. */
  function IndexedColor(code: nat): Color
    requires code <= 5
  {
    [Black, White, Green, Blue, Red, Yellow][code]
  }

  /** The color of a code in the two-bit palette. */
  function TwoBitColor(code: nat): Color
    requires code <= 3
  {
    [Black, White, Red, Yellow][code]
  }

  /** The code of a color in the panel's controller. */
  function ControllerCode(color: Color): nat {
    match color
    case Black => 0
    case White => 1
    case Yellow => 2
    case Red => 3
    case Blue => 5
    case Green => 6
  }

  function WireColor(wire: seq<byte>, indexed4: bool, k: nat): Color
    requires k < PIXELS && |wire| == PIXELS / (if indexed4 then 2 else 4) && ValidColor(wire, indexed4, k)
  {
    if indexed4 then IndexedColor(Pixel(wire, k)) else TwoBitColor(Pixel2(wire, k))
  }

  lemma PaletteKeepsColor(indexed4: bool, logical: nat)
    requires logical <= if indexed4 then 5 else 3
    ensures NativeColor(indexed4, logical)
         == ControllerCode(if indexed4 then IndexedColor(logical) else TwoBitColor(logical))
  {
  }

  lemma ControllerCodesDiffer(c: Color, d: Color)
    ensures ControllerCode(c) == ControllerCode(d) ==> c == d
  {
  }

  /** The pixel in column `x` and row `y` of a wire frame, 480 wide and 800 high, is shown in its
      own color: held upright, the panel has the first wire row in its rightmost column and the
      first wire column in its topmost row; turned, it is the other way round. */
  lemma ShownInItsColor(wire: seq<byte>, indexed4: bool, rotation: Rotation, native: seq<byte>, x: nat, y: nat)
    requires Drawn(wire, indexed4, rotation, native, PIXELS) && x < 480 && y < 800
    ensures ValidColor(wire, indexed4, y * 480 + x)
    ensures var column, row := if rotation == Rotate0 then 799 - y else y, if rotation == Rotate0 then x else 479 - x;
            Pixel(native, row * 800 + column) == ControllerCode(WireColor(wire, indexed4, y * 480 + x))
  {
    var k := y * 480 + x;
    WireRow(y, x);
    assert ValidColor(wire, indexed4, k);
    PaletteKeepsColor(indexed4, WirePixel(wire, indexed4, k));
    assert Pixel(native, PanelIndex(rotation, k)) == NativeColor(indexed4, WirePixel(wire, indexed4, k));
  }

  /** The order of pixels in a byte: four-bit pixels high half first, two-bit pixels from the top
      down. */
  lemma PixelsOfByte(data: seq<byte>, i: nat)
    requires i < |data|
    ensures data[i] == 16 * Pixel(data, 2 * i) + Pixel(data, 2 * i + 1)
    ensures data[i] == 64 * Pixel2(data, 4 * i) + 16 * Pixel2(data, 4 * i + 1)
                       + 4 * Pixel2(data, 4 * i + 2) + Pixel2(data, 4 * i + 3)
  {
    assert (4 * i) / 4 == i && (4 * i + 1) / 4 == i && (4 * i + 2) / 4 == i && (4 * i + 3) / 4 == i;
    TwoBitDigits(data[i]);
  }

  lemma TwoBitDigits(b: byte)
    ensures b == 64 * (b / 64) + 16 * (b / 16 % 4) + 4 * (b / 4 % 4) + b % 4
  {
    assert b == 4 * (b / 4) + b % 4 && b / 4 == 4 * (b / 16) + b / 4 % 4 && b / 16 == 4 * (b / 64) + b / 16 % 4;
  }

  // ----- What a converted frame determines

  lemma FrameFromPixels(s: seq<byte>, t: seq<byte>)
    requires |s| == |t|
    requires forall i: nat :: i < 2 * |s| ==> Pixel(s, i) == Pixel(t, i)
    ensures s == t
  {
    forall j | 0 <= j < |s|
      ensures s[j] == t[j]
    {
      assert Pixel(s, 2 * j) == Pixel(t, 2 * j) && Pixel(s, 2 * j + 1) == Pixel(t, 2 * j + 1);
      assert (2 * j) / 2 == j && (2 * j + 1) / 2 == j;
    }
  }

  /** An indexed wire frame can be recovered from its native frame: two that convert to the same
      one are equal. */
  lemma WireFrameRecoverable(wire: seq<byte>, wire': seq<byte>, rotation: Rotation, native: seq<byte>)
    requires ValidWire(wire, true) && ValidWire(wire', true)
    requires Drawn(wire, true, rotation, native, PIXELS) && Drawn(wire', true, rotation, native, PIXELS)
    ensures wire == wire'
  {
    forall k: nat | k < 2 * |wire|
      ensures Pixel(wire, k) == Pixel(wire', k)
    {
      assert NativeColor(true, WirePixel(wire, true, k)) == Pixel(native, PanelIndex(rotation, k));
      assert NativeColor(true, WirePixel(wire', true, k)) == Pixel(native, PanelIndex(rotation, k));
    }
    FrameFromPixels(wire, wire');
  }

  /** A complete conversion leaves nothing of the buffer's earlier content. */
  lemma ConversionDeterminesFrame(wire: seq<byte>, indexed4: bool, rotation: Rotation,
                                  native: seq<byte>, native': seq<byte>)
    requires Drawn(wire, indexed4, rotation, native, PIXELS) && Drawn(wire, indexed4, rotation, native', PIXELS)
    ensures native == native'
  {
    forall i: nat | i < 2 * |native|
      ensures Pixel(native, i) == Pixel(native', i)
    {
      IndicesInverse(rotation, i);
      var k := WireIndex(rotation, i);
      assert Pixel(native, PanelIndex(rotation, k)) == Pixel(native', PanelIndex(rotation, k));
    }
    FrameFromPixels(native, native');
  }

  /** `s` shows the pixels of `t` in reverse order. */
  ghost predicate Reversed(s: seq<byte>, t: seq<byte>) {
    |s| == |t| == FRAME_BYTES && forall i: nat :: i < PIXELS ==> Pixel(s, i) == Pixel(t, PIXELS - 1 - i)
  }

  lemma Rotate180IsReversal(wire: seq<byte>, indexed4: bool, upright: seq<byte>, turned: seq<byte>)
    requires Drawn(wire, indexed4, Rotate0, upright, PIXELS) && Drawn(wire, indexed4, Rotate180, turned, PIXELS)
    ensures Reversed(turned, upright)
  {
    forall i: nat | i < PIXELS
      ensures Pixel(turned, i) == Pixel(upright, PIXELS - 1 - i)
    {
      var k := WireIndex(Rotate180, i);
      IndicesInverse(Rotate180, i);
      RotationReverses(k);
      assert Pixel(turned, PanelIndex(Rotate180, k)) == Pixel(upright, PanelIndex(Rotate0, k));
    }
  }

  // ----- The content notice

  datatype ContentNotice = NoNotice | EmptyLibrary | AnalysisRequired | NoEligiblePhotos

  const NOTICE_HEIGHT := 44
  const TEXT_WIDTH := 640
  const TEXT_HEIGHT := 28
  const TEXT_LEFT := 80
  const TEXT_TOP := 8
  const BITMAP_BYTES := 2240

  /** Bit `i` of a bitmap, most significant bit of each byte first. */
  function BitmapBit(bitmap: seq<byte>, i: nat): bool
    requires i / 8 < |bitmap|
  {
    ByteBit(bitmap[i / 8], i % 8) == 1
  }

  function ByteBit(b: byte, i: nat): nat
    requires i < 8
  {
    match i
    case 0 => b / 128
    case 1 => b / 64 % 2
    case 2 => b / 32 % 2
    case 3 => b / 16 % 2
    case 4 => b / 8 % 2
    case 5 => b / 4 % 2
    case 6 => b / 2 % 2
    case _ => b % 2
  }

  /** The notice as drawn: a black separator of two rows, then black text on white. */
  function NoticeColor(bitmap: seq<byte>, row: nat, x: nat): (color: nat)
    requires |bitmap| == BITMAP_BYTES && row < NOTICE_HEIGHT && x < PANEL_WIDTH
    ensures color <= 1
  {
    if row < 2 then 0
    else if TEXT_TOP <= row < TEXT_TOP + TEXT_HEIGHT && TEXT_LEFT <= x < TEXT_LEFT + TEXT_WIDTH
      && BitmapBit(bitmap, (row - TEXT_TOP) * TEXT_WIDTH + x - TEXT_LEFT) then 0
    else 1
  }

  /** The order of bits in a byte of a bitmap: from the top down. */
  lemma BitsOfByte(b: byte)
    ensures b == 128 * ByteBit(b, 0) + 64 * ByteBit(b, 1) + 32 * ByteBit(b, 2) + 16 * ByteBit(b, 3)
                 + 8 * ByteBit(b, 4) + 4 * ByteBit(b, 5) + 2 * ByteBit(b, 6) + ByteBit(b, 7)
  {
    HighBits(b);
    LowBits(b);
  }

  lemma HighBits(b: byte)
    ensures b / 16 == 8 * (b / 128) + 4 * (b / 64 % 2) + 2 * (b / 32 % 2) + b / 16 % 2
  {
    assert b / 64 == 2 * (b / 128) + b / 64 % 2;
    assert b / 32 == 2 * (b / 64) + b / 32 % 2;
    assert b / 16 == 2 * (b / 32) + b / 16 % 2;
  }

  lemma LowBits(b: byte)
    ensures b == 16 * (b / 16) + 8 * (b / 8 % 2) + 4 * (b / 4 % 2) + 2 * (b / 2 % 2) + b % 2
  {
    assert b / 8 == 2 * (b / 16) + b / 8 % 2;
    assert b / 4 == 2 * (b / 8) + b / 4 % 2;
    assert b / 2 == 2 * (b / 4) + b / 2 % 2;
  }

  /** The text is centred in the notice, row by row: bit `n` of the bitmap is the pixel `n / 640`
      rows below and `n % 640` columns right of the text's corner, and nothing else is black but
      the two rows of the separator. */
  lemma TextIsCentred(bitmap: seq<byte>, row: nat, x: nat)
    requires |bitmap| == BITMAP_BYTES && row < 44 && x < 800
    ensures TEXT_LEFT + 640 + TEXT_LEFT == 800 && TEXT_TOP + 28 + TEXT_TOP == 44
    ensures NoticeColor(bitmap, row, x) == 0 <==>
              || row < 2
              || exists n: nat :: n < 640 * 28 && BitmapBit(bitmap, n)
                                  && row == TEXT_TOP + n / 640 && x == TEXT_LEFT + n % 640
  {
    if TEXT_TOP <= row < TEXT_TOP + TEXT_HEIGHT && TEXT_LEFT <= x < TEXT_LEFT + TEXT_WIDTH {
      var n := (row - TEXT_TOP) * 640 + (x - TEXT_LEFT);
      TextRow(row - TEXT_TOP, x - TEXT_LEFT);
      forall m: nat | m < 640 * 28 && row == TEXT_TOP + m / 640 && x == TEXT_LEFT + m % 640
        ensures m == n
      {
        assert m == 640 * (m / 640) + m % 640;
      }
    }
  }

  lemma TextRow(row: nat, x: nat)
    requires x < 640
    ensures (row * 640 + x) / 640 == row && (row * 640 + x) % 640 == x
  {
  }

  /** Panel position of notice pixel `n`, counted row by row from the separator down. */
  function NoticeIndex(rotation: Rotation, n: nat): (i: nat)
    requires n < NOTICE_HEIGHT * PANEL_WIDTH
    ensures i < PIXELS
  {
    var upright := (PANEL_HEIGHT - NOTICE_HEIGHT) * PANEL_WIDTH + n;
    if rotation == Rotate0 then upright else PIXELS - 1 - upright
  }

  function NoticePixel(bitmap: seq<byte>, n: nat): nat
    requires |bitmap| == BITMAP_BYTES && n < NOTICE_HEIGHT * PANEL_WIDTH
  {
    NoticeColor(bitmap, n / PANEL_WIDTH, n % PANEL_WIDTH)
  }

  /** The rows that are visually at the bottom of the picture. */
  predicate InNotice(rotation: Rotation, i: nat) {
    if rotation == Rotate0 then (PANEL_HEIGHT - NOTICE_HEIGHT) * PANEL_WIDTH <= i < PIXELS
    else i < NOTICE_HEIGHT * PANEL_WIDTH
  }

  /** `frame'` is `frame` with the first `count` pixels of the notice drawn and nothing else
      changed. */
  ghost predicate Overlaid(bitmap: seq<byte>, rotation: Rotation, frame: seq<byte>, frame': seq<byte>, count: nat) {
    && |bitmap| == BITMAP_BYTES && |frame| == |frame'| == FRAME_BYTES && count <= NOTICE_HEIGHT * PANEL_WIDTH
    && (forall n: nat :: n < count ==> Pixel(frame', NoticeIndex(rotation, n)) == NoticePixel(bitmap, n))
    && (forall i: nat :: i < PIXELS && !InNotice(rotation, i) ==> Pixel(frame', i) == Pixel(frame, i))
  }

  lemma OverlayNext(bitmap: seq<byte>, rotation: Rotation,
                    frame: seq<byte>, now: seq<byte>, next: seq<byte>, count: nat)
    requires Overlaid(bitmap, rotation, frame, now, count) && count < NOTICE_HEIGHT * PANEL_WIDTH
    requires OnePixelSet(now, next, NoticeIndex(rotation, count), NoticePixel(bitmap, count))
    ensures Overlaid(bitmap, rotation, frame, next, count + 1)
  {
  }

  /** `overlayContentNotice`, for the bitmap of the given kind. */
  method OverlayContentNotice(frame: array<byte>, kind: ContentNotice, bitmap: seq<byte>, rotation: Rotation)
      returns (ok: bool)
    requires |bitmap| == BITMAP_BYTES
    modifies frame
    ensures ok <==> kind != NoNotice && frame.Length == FRAME_BYTES
    ensures ok ==> Overlaid(bitmap, rotation, old(frame[..]), frame[..], NOTICE_HEIGHT * PANEL_WIDTH)
    ensures !ok ==> frame[..] == old(frame[..])
  {
    if kind == NoNotice || frame.Length != FRAME_BYTES { return false; }
    ghost var start := frame[..];
    for row := 0 to NOTICE_HEIGHT
      invariant Overlaid(bitmap, rotation, start, frame[..], row * PANEL_WIDTH)
    {
      for x := 0 to PANEL_WIDTH
        invariant Overlaid(bitmap, rotation, start, frame[..], row * PANEL_WIDTH + x)
      {
        ok := DrawNoticePixel(frame, bitmap, rotation, row, x, start);
        if !ok { return false; }
      }
    }
    ok := true;
  }

  /** The body of the notice loop. */
  method DrawNoticePixel(frame: array<byte>, bitmap: seq<byte>, rotation: Rotation, row: nat, x: nat,
                         ghost start: seq<byte>)
      returns (ok: bool)
    requires row < NOTICE_HEIGHT && x < PANEL_WIDTH
    requires Overlaid(bitmap, rotation, start, frame[..], row * PANEL_WIDTH + x)
    modifies frame
    ensures ok && Overlaid(bitmap, rotation, start, frame[..], row * PANEL_WIDTH + x + 1)
  {
    PanelRow(row, x);
    var px, py := x, PANEL_HEIGHT - NOTICE_HEIGHT + row;
    if rotation == Rotate180 {
      px, py := PANEL_WIDTH - 1 - px, PANEL_HEIGHT - 1 - py;
    }
    ghost var before := frame[..];
    ok := WritePanelPixel(frame, px, py, NoticeColor(bitmap, row, x));
    OverlayNext(bitmap, rotation, start, before, frame[..], row * PANEL_WIDTH + x);
  }

  /** Drawing the notice over a turned frame shows the reverse of drawing it over the upright
      one, for every frame and every notice. */
  lemma OverlayCommutesWithReversal(bitmap: seq<byte>, upright: seq<byte>, upright': seq<byte>,
                                    turned: seq<byte>, turned': seq<byte>)
    requires Reversed(turned, upright)
    requires Overlaid(bitmap, Rotate0, upright, upright', NOTICE_HEIGHT * PANEL_WIDTH)
    requires Overlaid(bitmap, Rotate180, turned, turned', NOTICE_HEIGHT * PANEL_WIDTH)
    ensures Reversed(turned', upright')
  {
    forall i: nat | i < PIXELS
      ensures Pixel(turned', i) == Pixel(upright', PIXELS - 1 - i)
    {
      var mirror := PIXELS - 1 - i;
      if InNotice(Rotate180, i) {
        var n := mirror - (PANEL_HEIGHT - NOTICE_HEIGHT) * PANEL_WIDTH;
        assert NoticeIndex(Rotate180, n) == i && NoticeIndex(Rotate0, n) == mirror;
      } else {
        assert !InNotice(Rotate0, mirror);
      }
    }
  }

  /** Converting one wire frame at both rotations and drawing one notice over each gives frames
      that are each other's reverse. */
  lemma NoticeAfterConversionIsReversal(wire: seq<byte>, indexed4: bool, bitmap: seq<byte>,
                                        upright: seq<byte>, upright': seq<byte>,
                                        turned: seq<byte>, turned': seq<byte>)
    requires Drawn(wire, indexed4, Rotate0, upright, PIXELS) && Drawn(wire, indexed4, Rotate180, turned, PIXELS)
    requires Overlaid(bitmap, Rotate0, upright, upright', NOTICE_HEIGHT * PANEL_WIDTH)
    requires Overlaid(bitmap, Rotate180, turned, turned', NOTICE_HEIGHT * PANEL_WIDTH)
    ensures Reversed(turned', upright')
  {
    Rotate180IsReversal(wire, indexed4, upright, turned);
    OverlayCommutesWithReversal(bitmap, upright, upright', turned, turned');
  }
}
