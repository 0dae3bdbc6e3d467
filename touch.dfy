/**
 * `iot_ft5x06_touch_report` of tulip/esp32s3/ft5x06_touchscreen.c: one read
 * of the first 32 registers of the FT5x06 controller decoded into the touch
 * record the driver fills in. The I2C transaction is the parameter `read`;
 * `H_RES`, the display width, is the parameter `hRes`.
 */
module Touch {
  import opened Wrappers
  import opened Bits

  /** The registers read on each report, from address 0. */
  const REGISTER_COUNT := 32
  /** The most touch points the controller reports. */
  const MAX_POINTS := 5

  datatype Status = EspOk | EspFail
  datatype Event = Press | Release

  /** The driver handle; only its `xy_swap` flag matters to a report. */
  datatype Device = Device(xySwap: bool)

  /** `touch_info_t`: the number of points, the event, and five coordinates per axis. */
  datatype TouchInfo = TouchInfo(touchPoint: nat, event: Event, curx: seq<int>, cury: seq<int>)

  /** The outcome of `iot_ft5x06_read(dev, 0x00, 32, data)`. */
  datatype ReadResult = ReadFailed | ReadOk(data: seq<byte>)

  /** `((hi & 0x0f) << 8) | lo`: a 12-bit coordinate spread over two registers. */
  function Coordinate(hi: byte, lo: byte): (r: nat)
    ensures r < 0x1000 && r == hi % 16 * 256 + lo
  {
    Nibbles(hi);
    ShlConstants(BitAnd(hi, 0x0F));
    assert Mask(8) == 255;
    OrShifted(BitAnd(hi, 0x0F), lo, 8);
    BitOr(Shl(BitAnd(hi, 0x0F), 8), lo)
  }

  /** The first coordinate of point `i`, from registers `3 + 6i` and `4 + 6i`. */
  function First(data: seq<byte>, i: nat): nat
    requires |data| == REGISTER_COUNT && i < MAX_POINTS
  {
    Coordinate(data[3 + 6 * i], data[4 + 6 * i])
  }

  /** The second coordinate of point `i`, from registers `5 + 6i` and `6 + 6i`. */
  function Second(data: seq<byte>, i: nat): nat
    requires |data| == REGISTER_COUNT && i < MAX_POINTS
  {
    Coordinate(data[5 + 6 * i], data[6 + 6 * i])
  }

  /** `data[2] & 0x7`: the number of points, the low three bits of register 2. */
  function PointCount(status: byte): (r: nat)
    ensures r == status % 8
  {
    assert Mask(3) == 7;
    AndLowMask(status, 3);
    ShlConstants(Shr(status, 3));
    BitAnd(status, 7)
  }

  /** The five points of a press as (`curx`, `cury`): the first coordinate mirrored as `H_RES - c`, the axes exchanged with `xy_swap`. */
  function Points(data: seq<byte>, xySwap: bool, hRes: int): (r: (seq<int>, seq<int>))
    requires |data| == REGISTER_COUNT
    ensures |r.0| == |r.1| == MAX_POINTS
    ensures forall i :: 0 <= i < MAX_POINTS ==>
              var mirrored := hRes - (data[3 + 6 * i] as int % 16 * 256 + data[4 + 6 * i] as int);
              var direct := data[5 + 6 * i] as int % 16 * 256 + data[6 + 6 * i] as int;
              if xySwap then r.0[i] == direct && r.1[i] == mirrored
              else r.0[i] == mirrored && r.1[i] == direct
  {
    var mirrored := seq(MAX_POINTS, i requires 0 <= i < MAX_POINTS => hRes - First(data, i));
    var direct := seq(MAX_POINTS, i requires 0 <= i < MAX_POINTS => Second(data, i));
    if xySwap then (direct, mirrored) else (mirrored, direct)
  }

  /**
   * The report. A missing device or record fails at once and changes
   * nothing. A failed read fails with a release and no points, keeping the
   * old coordinates. Otherwise a point count of 1 to 5 is a press and all
   * five points are decoded; any other count is a release with no points
   * that keeps the old coordinates.
   */
  function Report(device: Option<Device>, info: Option<TouchInfo>, read: ReadResult, hRes: int): (r: (Status, Option<TouchInfo>))
    requires read.ReadOk? ==> |read.data| == REGISTER_COUNT
    ensures device.None? || info.None? ==> r == (EspFail, info)
    ensures device.Some? && info.Some? ==> r.1.Some?
    ensures device.Some? && info.Some? && read.ReadFailed? ==>
              r == (EspFail, Some(info.value.(touchPoint := 0, event := Release)))
    ensures device.Some? && info.Some? && read.ReadOk? ==>
              && r.0 == EspOk
              && (r.1.value.event == Press <==> 1 <= read.data[2] % 8 <= MAX_POINTS)
              && (r.1.value.event == Release ==> r.1.value == info.value.(touchPoint := 0, event := Release))
              && (r.1.value.event == Press ==>
                    && r.1.value.touchPoint == read.data[2] % 8
                    && |r.1.value.curx| == |r.1.value.cury| == MAX_POINTS
                    // point i: the first field (registers 3+6i, 4+6i) mirrored as H_RES - c,
                    // the second (registers 5+6i, 6+6i) as read; xy_swap exchanges the axes
                    && forall i :: 0 <= i < MAX_POINTS ==>
                         var mirrored := hRes - (read.data[3 + 6 * i] as int % 16 * 256 + read.data[4 + 6 * i] as int);
                         var direct := read.data[5 + 6 * i] as int % 16 * 256 + read.data[6 + 6 * i] as int;
                         if device.value.xySwap then r.1.value.curx[i] == direct && r.1.value.cury[i] == mirrored
                         else r.1.value.curx[i] == mirrored && r.1.value.cury[i] == direct)
  {
    if device.None? || info.None? then (EspFail, info)
    else match read
      case ReadFailed => (EspFail, Some(info.value.(touchPoint := 0, event := Release)))
      case ReadOk(data) =>
        var count := PointCount(data[2]);
        if 0 < count <= MAX_POINTS then
          var (xs, ys) := Points(data, device.value.xySwap, hRes);
          (EspOk, Some(TouchInfo(count, Press, xs, ys)))
        else (EspOk, Some(info.value.(touchPoint := 0, event := Release)))
  }

  /** With `xy_swap` the report is the plain one with the two axes exchanged. */
  lemma SwapExchangesAxes(info: TouchInfo, data: seq<byte>, hRes: int)
    requires |data| == REGISTER_COUNT
    ensures var plain := Report(Some(Device(false)), Some(info), ReadOk(data), hRes).1.value;
            var swapped := Report(Some(Device(true)), Some(info), ReadOk(data), hRes).1.value;
            && swapped.touchPoint == plain.touchPoint && swapped.event == plain.event
            && (plain.event == Press ==> swapped.curx == plain.cury && swapped.cury == plain.curx)
            && (plain.event == Release ==> swapped == plain)
  {
  }

  /** Each coordinate below 4096 is carried exactly by its two registers, and back. */
  lemma CoordinateRoundTrip(c: nat, hi: byte, lo: byte)
    requires c < 0x1000 && hi < 16
    ensures Coordinate(c / 256, c % 256) == c
    ensures Coordinate(hi, lo) / 256 == hi && Coordinate(hi, lo) % 256 == lo
  {
    SplitSixteen(c / 256, 0, c / 256);
    SplitSixteen(hi, 0, hi);
    SplitByte(256 * hi + lo, hi, lo);
  }

  /** The register dump of a controller reporting `count` points at `xs`, `ys`. */
  function Registers(count: nat, xs: seq<nat>, ys: seq<nat>): (r: seq<byte>)
    requires count < 8 && |xs| == MAX_POINTS && |ys| == MAX_POINTS
    requires forall i :: 0 <= i < MAX_POINTS ==> xs[i] < 0x1000 && ys[i] < 0x1000
    ensures |r| == REGISTER_COUNT && r[2] == count
    ensures forall i :: 0 <= i < MAX_POINTS ==>
              r[3 + 6 * i] == xs[i] / 256 && r[4 + 6 * i] == xs[i] % 256
              && r[5 + 6 * i] == ys[i] / 256 && r[6 + 6 * i] == ys[i] % 256
  {
    seq(REGISTER_COUNT, k requires 0 <= k < REGISTER_COUNT =>
      if k == 2 then count
      else if k < 3 || (k - 3) % 6 >= 4 then 0
      else
        var i, offset := (k - 3) / 6, (k - 3) % 6;
        if offset == 0 then xs[i] / 256
        else if offset == 1 then xs[i] % 256
        else if offset == 2 then ys[i] / 256
        else ys[i] % 256)
  }

  /** Decoding the registers of a press gives back its points, the first axis mirrored. */
  lemma ReportDecodesPress(info: TouchInfo, count: nat, xs: seq<nat>, ys: seq<nat>, hRes: int)
    requires 1 <= count <= MAX_POINTS && |xs| == MAX_POINTS && |ys| == MAX_POINTS
    requires forall i :: 0 <= i < MAX_POINTS ==> xs[i] < 0x1000 && ys[i] < 0x1000
    ensures Report(Some(Device(false)), Some(info), ReadOk(Registers(count, xs, ys)), hRes)
            == (EspOk, Some(TouchInfo(count, Press, seq(MAX_POINTS, i requires 0 <= i < MAX_POINTS => hRes - xs[i]), ys)))
  {
    var data := Registers(count, xs, ys);
    var mirrored := seq(MAX_POINTS, i requires 0 <= i < MAX_POINTS => hRes - xs[i]);
    var points := Points(data, false, hRes);
    forall i | 0 <= i < MAX_POINTS
      ensures points.0[i] == mirrored[i] && points.1[i] == ys[i]
    {
      CoordinateRoundTrip(xs[i], 0, 0);
      CoordinateRoundTrip(ys[i], 0, 0);
    }
    assert points.0 == mirrored;
    assert points.1 == ys;
  }
}
