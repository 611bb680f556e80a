/** libavcodec/8bps.c: the QuickTime 8BPS decoder. A packet holds a table of
    16-bit row lengths and then the rows of each colour plane, run-length coded.

    `Row` and `Rows` say which bytes a packet puts on the rows, `Painted` where
    they go. The methods run the source's loops, on an array that stands for
    frame->data[0] and with indices that stand for its pointers. */
module EightBps {
  import opened Options
  import opened Words

  type byte = x: int | 0 <= x < 0x100

  const TWO_32: int := 0x1_0000_0000

  // ----- decode_init

  // px_inc is the distance between bytes of one plane.
  datatype Format = Format(planemap: seq<nat>, pxInc: nat) {
    predicate Distinct() {
      && (forall p :: 0 <= p < |planemap| ==> planemap[p] < pxInc)
      && (forall p, q :: 0 <= p < q < |planemap| ==> planemap[p] != planemap[q])
    }
  }

  // get0Rgb32: ff_get_format prefers 0RGB32 to BGR24.
  function DecodeInit(bitsPerCodedSample: int, get0Rgb32: bool, bigEndian: bool): (format: Option<Format>)
    ensures format.Some? <==> bitsPerCodedSample in {8, 24, 32}
    ensures format.Some? ==> format.value.Distinct() && 8 * |format.value.planemap| == bitsPerCodedSample
  {
    match bitsPerCodedSample
    case 8 => Some(Format([0], 1))
    case 24 => Some(Format([2, 1, 0], if get0Rgb32 then 4 else 3))
    case 32 => Some(Format(if bigEndian then [1, 2, 3, 0] else [2, 1, 0, 3], 4))
    case _ => None
  }

  // The planes of a packet in order, and the bytes of a pixel in memory: the
  // formats are BGR24, 0RGB32 or RGB32, the latter two by endianness.
  function Planes(bitsPerCodedSample: int): string {
    match bitsPerCodedSample
    case 8 => "P"
    case 24 => "RGB"
    case 32 => "RGBA"
    case _ => ""
  }

  function PixelLayout(bitsPerCodedSample: int, get0Rgb32: bool, bigEndian: bool): string {
    match bitsPerCodedSample
    case 8 => "P"
    case 24 => if !get0Rgb32 then "BGR" else if bigEndian then "0RGB" else "BGR0"
    case 32 => if bigEndian then "ARGB" else "BGRA"
    case _ => ""
  }

  // Every plane goes to the byte of its colour, except on a big-endian machine
  // that decodes 24-bit video to 0RGB32, where the map is not adapted.
  lemma ColoursAreInPlaceIff(bitsPerCodedSample: int, get0Rgb32: bool, bigEndian: bool)
    requires DecodeInit(bitsPerCodedSample, get0Rgb32, bigEndian).Some?
    ensures var format, planes, pixel := DecodeInit(bitsPerCodedSample, get0Rgb32, bigEndian).value,
                                         Planes(bitsPerCodedSample), PixelLayout(bitsPerCodedSample, get0Rgb32, bigEndian);
      && |format.planemap| == |planes| && format.pxInc == |pixel|
      && ((forall p :: 0 <= p < |planes| ==> pixel[format.planemap[p]] == planes[p])
          <==> !(bitsPerCodedSample == 24 && get0Rgb32 && bigEndian))
  {
    var planes, pixel := Planes(bitsPerCodedSample), PixelLayout(bitsPerCodedSample, get0Rgb32, bigEndian);
    if bitsPerCodedSample == 24 && get0Rgb32 && bigEndian {
      assert pixel[2] == 'G' && planes[0] == 'R';
    }
  }

  // ----- What a packet means

  // The bytes a row receives, where the next row's code begins, and whether
  // the data sufficed.
  datatype RowResult = RowResult(pixels: seq<byte>, dp: nat, ok: bool) {
    function After(before: seq<byte>): RowResult {
      this.(pixels := before + pixels)
    }
  }

  function Repeat(x: byte, n: nat): (s: seq<byte>)
    ensures |s| == n && forall k :: 0 <= k < n ==> s[k] == x
  {
    seq(n, _ => x)
  }

  // unsigned int subtraction
  function Minus32(x: nat, y: nat): nat {
    (x - y) % TWO_32
  }

  // What stands at dp: some bytes for the row, whose code ends at dp, or a
  // reason to leave the row.
  datatype Code = Bytes(pixels: seq<byte>, dp: nat) | Leave(dp: nat, ok: bool)

  // room is the distance to pixptr_end. A code that does not fit ends the row.
  function CodeAt(data: seq<byte>, dp: nat, room: int, inc: nat): (code: Code)
    ensures code.Bytes? ==> dp + 2 <= code.dp <= |data| && |code.pixels| > 0 && |code.pixels| * inc <= room
  {
    if |data| - dp <= 1 then Leave(dp, false)
    else if data[dp] <= 127 then
      var count := data[dp] + 1;
      if room < count * inc then Leave(dp + 1, true)
      else if |data| - (dp + 1) < count then Leave(dp + 1, false)
      else Bytes(data[dp + 1..dp + 1 + count], dp + 1 + count)
    else
      var count := 257 - data[dp];
      if room < count * inc then Leave(dp + 1, true)
      else Bytes(Repeat(data[dp + 1], count), dp + 2)
  }

  // One row whose code begins at dp and should be dlen bytes long.
  function Row(data: seq<byte>, dp: nat, dlen: nat, room: int, inc: nat): RowResult
    decreases |data| - dp
  {
    if dlen == 0 then RowResult([], dp, true)
    else match CodeAt(data, dp, room, inc)
    case Leave(dp', ok) => RowResult([], dp', ok)
    case Bytes(pixels, dp') =>
      Row(data, dp', Minus32(dlen, dp' - dp), room - |pixels| * inc, inc).After(pixels)
  }

  // A row never outgrows its room.
  lemma {:induction false} RowFits(data: seq<byte>, dp: nat, dlen: nat, room: nat, inc: nat)
    ensures |Row(data, dp, dlen, room, inc).pixels| * inc <= room
    ensures Row(data, dp, dlen, room, inc).dp >= dp
    decreases |data| - dp
  {
    hide CodeAt;
    if dlen > 0 {
      var code := CodeAt(data, dp, room, inc);
      if code.Bytes? {
        var dlen', room' := Minus32(dlen, code.dp - dp), room - |code.pixels| * inc;
        RowFits(data, code.dp, dlen', room', inc);
        var rest := Row(data, code.dp, dlen', room', inc).pixels;
        assert (|code.pixels| + |rest|) * inc == |code.pixels| * inc + |rest| * inc;
      } else {
        LeaveForward(data, dp, room, inc);
      }
    }
  }

  lemma LeaveForward(data: seq<byte>, dp: nat, room: int, inc: nat)
    ensures CodeAt(data, dp, room, inc).dp >= dp
  {
  }

  // ----- Where the bytes go

  // Pixel k of a row at start + k * inc.
  function Painted(s: seq<byte>, start: nat, inc: nat, pixels: seq<byte>): (t: seq<byte>)
    ensures |t| == |s|
  {
    if pixels == [] then s
    else
      var k := |pixels| - 1;
      var t := Painted(s, start, inc, pixels[..k]);
      if start + k * inc < |s| then t[start + k * inc := pixels[k]] else t
  }

  lemma PaintedAppend(s: seq<byte>, start: nat, inc: nat, pixels: seq<byte>, x: byte)
    requires start + |pixels| * inc < |s|
    ensures Painted(s, start, inc, pixels + [x]) == Painted(s, start, inc, pixels)[start + |pixels| * inc := x]
  {
    assert (pixels + [x])[..|pixels|] == pixels;
  }

  // ----- decode_frame

  lemma PaintedNothing(s: seq<byte>, start: nat, inc: nat)
    ensures Painted(s, start, inc, []) == s
  {
  }

  // The while loop over one row.
  method DecodeRow(data: seq<byte>, dp0: nat, dlen0: nat, frame: array<byte>, start: nat, linesize: nat, inc: nat)
      returns (ok: bool, dp: nat)
    requires inc > 0 && (linesize >= inc ==> start + linesize - inc < frame.Length)
    modifies frame
    ensures var r := Row(data, dp0, dlen0, linesize, inc);
            ok == r.ok && dp == r.dp && frame[..] == Painted(old(frame[..]), start, inc, r.pixels)
  {
    hide Painted, Row, Minus32;
    ghost var all := Row(data, dp0, dlen0, linesize, inc);
    ghost var pixels: seq<byte> := [];
    PaintedNothing(frame[..], start, inc);
    dp, ok := dp0, true;
    var dlen, pixptr, pixptrEnd := dlen0, start, start + linesize;
    while dlen > 0
      invariant ok && pixptr == start + |pixels| * inc <= pixptrEnd
      invariant all == Row(data, dp, dlen, pixptrEnd - pixptr, inc).After(pixels)
      invariant frame[..] == Painted(old(frame[..]), start, inc, pixels)
      decreases |data| - dp
    {
      ghost var room := pixptrEnd - pixptr;
      RowUnfolds(data, dp, dlen, room, inc, pixels);
      if |data| - dp <= 1 {
        ok := false;
        break;
      }
      var count := data[dp];
      dp := dp + 1;
      if count <= 127 {
        count := count + 1;
        dlen := Minus32(dlen, count + 1);
        if pixptrEnd - pixptr < count * inc {
          break;
        }
        if |data| - dp < count {
          ok := false;
          break;
        }
        LastByteFits(frame.Length, start, linesize, inc, pixptr, count);
        dp, pixptr := CopyLiteral(data, dp, frame, start, inc, pixptr, count, old(frame[..]), pixels);
        pixels := pixels + data[dp - count..dp];
      } else {
        count := 257 - count;
        if pixptrEnd - pixptr < count * inc {
          break;
        }
        LastByteFits(frame.Length, start, linesize, inc, pixptr, count);
        pixptr := FillRun(data[dp], frame, start, inc, pixptr, count, old(frame[..]), pixels);
        pixels := pixels + Repeat(data[dp], count);
        dp := dp + 1;
        dlen := Minus32(dlen, 2);
      }
    }
    RowEnds(data, dp, pixptrEnd - pixptr, inc, pixels);
  }

  lemma RowEnds(data: seq<byte>, dp: nat, room: int, inc: nat, before: seq<byte>)
    ensures Row(data, dp, 0, room, inc).After(before) == RowResult(before, dp, true)
  {
    assert before + [] == before;
  }

  lemma RowUnfolds(data: seq<byte>, dp: nat, dlen: nat, room: int, inc: nat, before: seq<byte>)
    requires dlen > 0
    ensures var code, r := CodeAt(data, dp, room, inc), Row(data, dp, dlen, room, inc).After(before);
            if code.Leave? then r == RowResult(before, code.dp, code.ok)
            else r == Row(data, code.dp, Minus32(dlen, code.dp - dp), room - |code.pixels| * inc, inc).After(before + code.pixels)
  {
    hide CodeAt, Minus32;
    var code := CodeAt(data, dp, room, inc);
    if code.Bytes? {
      AfterAfter(Row(data, code.dp, Minus32(dlen, code.dp - dp), room - |code.pixels| * inc, inc), before, code.pixels);
    }
  }

  lemma LastByteFits(length: nat, start: nat, linesize: nat, inc: nat, pixptr: nat, count: nat)
    requires inc > 0 && count > 0 && (linesize >= inc ==> start + linesize - inc < length)
    requires start <= pixptr && start + linesize - pixptr >= count * inc
    ensures pixptr + (count - 1) * inc < length
  {
    assert count * inc == (count - 1) * inc + inc;
  }

  lemma AfterAfter(r: RowResult, a: seq<byte>, b: seq<byte>)
    ensures r.After(b).After(a) == r.After(a + b)
  {
    assert a + (b + r.pixels) == (a + b) + r.pixels;
  }

  // while (count--) over a literal packet
  method CopyLiteral(data: seq<byte>, dp0: nat, frame: array<byte>, start: nat, inc: nat, pixptr0: nat, count: nat,
      ghost before: seq<byte>, ghost pixels: seq<byte>) returns (dp: nat, pixptr: nat)
    requires dp0 + count <= |data| && pixptr0 == start + |pixels| * inc
    requires count > 0 ==> pixptr0 + (count - 1) * inc < frame.Length
    requires |before| == frame.Length && frame[..] == Painted(before, start, inc, pixels)
    modifies frame
    ensures dp == dp0 + count && pixptr == pixptr0 + count * inc == start + (|pixels| + count) * inc
    ensures frame[..] == Painted(before, start, inc, pixels + data[dp0..dp])
  {
    hide Painted;
    dp, pixptr := dp0, pixptr0;
    ghost var done := pixels;
    for i := 0 to count
      invariant dp == dp0 + i && done == pixels + data[dp0..dp] && pixptr == pixptr0 + i * inc == start + |done| * inc
      invariant frame[..] == Painted(before, start, inc, done)
    {
      Reaches(i, count, inc);
      PaintedAppend(before, start, inc, done, data[dp]);
      frame[pixptr] := data[dp];
      assert data[dp0..dp + 1] == data[dp0..dp] + [data[dp]];
      done := done + [data[dp]];
      dp, pixptr := dp + 1, pixptr + inc;
    }
  }

  // while (count--) over a run
  method FillRun(x: byte, frame: array<byte>, start: nat, inc: nat, pixptr0: nat, count: nat,
      ghost before: seq<byte>, ghost pixels: seq<byte>) returns (pixptr: nat)
    requires pixptr0 == start + |pixels| * inc
    requires count > 0 ==> pixptr0 + (count - 1) * inc < frame.Length
    requires |before| == frame.Length && frame[..] == Painted(before, start, inc, pixels)
    modifies frame
    ensures pixptr == pixptr0 + count * inc == start + (|pixels| + count) * inc
    ensures frame[..] == Painted(before, start, inc, pixels + Repeat(x, count))
  {
    hide Painted;
    pixptr := pixptr0;
    ghost var done := pixels;
    for i := 0 to count
      invariant done == pixels + Repeat(x, i) && pixptr == pixptr0 + i * inc == start + |done| * inc
      invariant frame[..] == Painted(before, start, inc, done)
    {
      Reaches(i, count, inc);
      PaintedAppend(before, start, inc, done, x);
      frame[pixptr] := x;
      done := done + [x];
      pixptr := pixptr + inc;
    }
  }

  lemma Reaches(i: nat, count: nat, inc: nat)
    requires i < count
    ensures i * inc <= (count - 1) * inc && (i + 1) * inc == i * inc + inc
  {
  }

  // ----- A whole frame

  function BigEndian(high: int, low: int): int {
    0x100 * high + low
  }

  // The big-endian length of row j, plane by plane.
  function LineLength(data: seq<byte>, j: nat): nat
    requires 2 * j + 2 <= |data|
  {
    BigEndian(data[2 * j], data[2 * j + 1])
  }

  // What rows receive, up to the first failure.
  datatype FrameResult = FrameResult(rows: seq<seq<byte>>, ok: bool) {
    function After(before: seq<seq<byte>>): FrameResult {
      this.(rows := before + rows)
    }
  }

  // Rows j..total, the code of the first one at dp.
  function Rows(data: seq<byte>, j: nat, total: nat, dp: nat, linesize: nat, inc: nat): FrameResult
    decreases total - j
  {
    if j >= total then FrameResult([], true)
    else if |data| < 2 * j + 2 then FrameResult([], false)
    else
      var r := Row(data, dp, LineLength(data, j), linesize, inc);
      if r.ok then Rows(data, j + 1, total, r.dp, linesize, inc).After([r.pixels])
      else FrameResult([r.pixels], false)
  }

  // The number of rows in some planes.
  function RowsIn(planes: nat, height: nat): nat {
    planes * height
  }

  // Where row j, of all planes, begins in the frame.
  function RowStart(format: Format, height: nat, linesize: nat, j: nat): nat
    requires j < RowsIn(|format.planemap|, height)
  {
    PlaneOf(|format.planemap|, height, j);
    (j % height) * linesize + format.planemap[j / height]
  }

  lemma PlaneOf(planes: nat, height: nat, j: nat)
    requires j < planes * height
    ensures height > 0 && j / height < planes
  {
    if height > 0 {
      Quotient(planes, height, j);
    }
  }

  lemma Quotient(planes: nat, height: nat, j: nat)
    requires height > 0
    ensures j < planes * height ==> j / height < planes
  {
    if j / height >= planes {
      TimesMonotone(planes, j / height, height);
    }
  }

  function PaintedRows(s: seq<byte>, rows: seq<seq<byte>>, format: Format, height: nat, linesize: nat): (t: seq<byte>)
    requires |rows| <= RowsIn(|format.planemap|, height)
    ensures |t| == |s|
  {
    if rows == [] then s
    else
      var j := |rows| - 1;
      Painted(PaintedRows(s, rows[..j], format, height, linesize), RowStart(format, height, linesize, j), format.pxInc, rows[j])
  }

  lemma PaintedRowsAppend(s: seq<byte>, rows: seq<seq<byte>>, row: seq<byte>, format: Format, height: nat, linesize: nat)
    requires |rows| < RowsIn(|format.planemap|, height)
    ensures PaintedRows(s, rows + [row], format, height, linesize)
            == Painted(PaintedRows(s, rows, format, height, linesize), RowStart(format, height, linesize, |rows|), format.pxInc, row)
  {
    assert (rows + [row])[..|rows|] == rows;
  }

  method DecodeFrame(data: seq<byte>, format: Format, height: nat, linesize: nat, frame: array<byte>) returns (ok: bool)
    requires format.Distinct() && frame.Length >= height * linesize
    modifies frame
    ensures var planes := |format.planemap|;
            var r := Rows(data, 0, RowsIn(planes, height), planes * (2 * height), linesize, format.pxInc);
            ok == r.ok && |r.rows| <= RowsIn(planes, height) &&
            frame[..] == PaintedRows(old(frame[..]), r.rows, format, height, linesize)
  {
    hide Row, Rows, Painted, PaintedRows, RowStart, LineLength, Format.Distinct, RowsIn;
    var planes := |format.planemap|;
    var dp: nat := planes * (2 * height);
    ghost var total := RowsIn(planes, height);
    RowIndex(0, planes, height);
    ghost var all := Rows(data, 0, total, dp, linesize, format.pxInc);
    ghost var rows: seq<seq<byte>> := [];
    ghost var before := frame[..];
    PaintedNoRows(before, format, height, linesize);
    NothingAfter(all);
    for p := 0 to planes
      invariant |rows| == RowsIn(p, height) <= total
      invariant all == Rows(data, |rows|, total, dp, linesize, format.pxInc).After(rows)
      invariant frame[..] == PaintedRows(before, rows, format, height, linesize)
    {
      RowIndex(p, planes, height);
      ok, dp, rows := DecodePlane(data, dp, p, format, height, linesize, frame, before, all, rows);
      if !ok {
        return;
      }
    }
    assert |rows| == total;
    RowsEnd(data, total, dp, linesize, format.pxInc, rows);
    ok := true;
  }

  // The rows of plane p, when `done` are the rows of the planes before it.
  method DecodePlane(data: seq<byte>, dp0: nat, p: nat, format: Format, height: nat, linesize: nat, frame: array<byte>,
      ghost before: seq<byte>, ghost all: FrameResult, ghost done: seq<seq<byte>>)
      returns (ok: bool, dp: nat, ghost rows: seq<seq<byte>>)
    requires format.Distinct() && frame.Length >= height * linesize && p < |format.planemap|
    requires |done| == RowsIn(p, height) <= RowsIn(|format.planemap|, height)
    requires all == Rows(data, |done|, RowsIn(|format.planemap|, height), dp0, linesize, format.pxInc).After(done)
    requires frame[..] == PaintedRows(before, done, format, height, linesize)
    modifies frame
    ensures |rows| <= RowsIn(|format.planemap|, height) && frame[..] == PaintedRows(before, rows, format, height, linesize)
    ensures ok ==> |rows| == RowsIn(p + 1, height)
                   && all == Rows(data, |rows|, RowsIn(|format.planemap|, height), dp, linesize, format.pxInc).After(rows)
    ensures !ok ==> all == FrameResult(rows, false)
  {
    hide Row, Rows, Painted, PaintedRows, RowStart, LineLength, Format.Distinct;
    ghost var total := RowsIn(|format.planemap|, height);
    RowIndex(p, |format.planemap|, height);
    TwoBytesEach(p, height);
    var lp := p * (2 * height);
    ok, dp, rows := true, dp0, done;
    for row := 0 to height
      invariant ok && |rows| == |done| + row
      invariant all == Rows(data, |rows|, total, dp, linesize, format.pxInc).After(rows)
      invariant frame[..] == PaintedRows(before, rows, format, height, linesize)
    {
      var pixptr := row * linesize + format.planemap[p];
      StartInFrame(format, height, linesize, p, row);
      RowsUnfold(data, |rows|, total, dp, linesize, format.pxInc, rows);
      if |data| - lp < row * 2 + 2 {
        return false, dp, rows;
      }
      var dlen := BigEndian(data[lp + row * 2], data[lp + row * 2 + 1]);
      ghost var r := Row(data, dp, dlen, linesize, format.pxInc);
      LengthAt(data, |rows|, lp + row * 2);
      ok, dp := DecodeRow(data, dp, dlen, frame, pixptr, linesize, format.pxInc);
      PaintedRowsAppend(before, rows, r.pixels, format, height, linesize);
      rows := rows + [r.pixels];
      if !ok {
        return;
      }
    }
  }

  lemma PaintedNoRows(s: seq<byte>, format: Format, height: nat, linesize: nat)
    ensures PaintedRows(s, [], format, height, linesize) == s
  {
  }

  lemma NothingAfter(r: FrameResult)
    ensures r.After([]) == r
  {
    assert [] + r.rows == r.rows;
  }

  lemma RowIndex(p: nat, planes: nat, height: nat)
    requires p <= planes
    ensures RowsIn(0, height) == 0 && RowsIn(p + 1, height) == RowsIn(p, height) + height
    ensures RowsIn(p, height) <= RowsIn(planes, height)
    ensures p < planes ==> RowsIn(p + 1, height) <= RowsIn(planes, height)
  {
    NextMultiple(p, height);
    TimesMonotone(p, planes, height);
    if p < planes {
      TimesMonotone(p + 1, planes, height);
    }
  }

  lemma TwoBytesEach(p: nat, height: nat)
    ensures p * (2 * height) == 2 * RowsIn(p, height)
  {
  }

  lemma LengthAt(data: seq<byte>, j: nat, at: nat)
    requires at == 2 * j && at + 2 <= |data|
    ensures LineLength(data, j) == BigEndian(data[at], data[at + 1])
  {
  }

  // Row `row` of plane p begins at its own place, and inside the frame.
  lemma StartInFrame(format: Format, height: nat, linesize: nat, p: nat, row: nat)
    requires format.Distinct() && p < |format.planemap| && row < height
    ensures RowsIn(p, height) + row < RowsIn(|format.planemap|, height)
    ensures RowStart(format, height, linesize, RowsIn(p, height) + row) == row * linesize + format.planemap[p]
    ensures format.pxInc > 0
    ensures linesize >= format.pxInc ==> row * linesize + format.planemap[p] + linesize - format.pxInc < height * linesize
  {
    RowIndex(p, |format.planemap|, height);
    DivisionIsUnique(p * height + row, p, row, height);
    NextMultiple(row, linesize);
    TimesMonotone(row + 1, height, linesize);
  }

  lemma RowsUnfold(data: seq<byte>, j: nat, total: nat, dp: nat, linesize: nat, inc: nat, before: seq<seq<byte>>)
    requires j < total
    ensures var r := Rows(data, j, total, dp, linesize, inc).After(before);
            if |data| < 2 * j + 2 then r == FrameResult(before, false)
            else
              var row := Row(data, dp, LineLength(data, j), linesize, inc);
              if row.ok then r == Rows(data, j + 1, total, row.dp, linesize, inc).After(before + [row.pixels])
              else r == FrameResult(before + [row.pixels], false)
  {
    hide Row, LineLength;
    if |data| >= 2 * j + 2 {
      var row := Row(data, dp, LineLength(data, j), linesize, inc);
      if row.ok {
        var rest := Rows(data, j + 1, total, row.dp, linesize, inc).rows;
        assert before + ([row.pixels] + rest) == (before + [row.pixels]) + rest;
      }
    } else {
      assert before + [] == before;
    }
  }

  lemma RowsEnd(data: seq<byte>, total: nat, dp: nat, linesize: nat, inc: nat, before: seq<seq<byte>>)
    ensures Rows(data, total, total, dp, linesize, inc).After(before) == FrameResult(before, true)
  {
    assert before + [] == before;
  }

  // ----- Where each byte of the frame comes from

  lemma {:induction false} PaintedHit(s: seq<byte>, start: nat, inc: nat, pixels: seq<byte>, k: nat)
    requires k < |pixels| && start + k * inc < |s| && inc > 0
    ensures Painted(s, start, inc, pixels)[start + k * inc] == pixels[k]
  {
    var last := |pixels| - 1;
    if k < last {
      PaintedHit(s, start, inc, pixels[..last], k);
      TimesMonotone(k + 1, last, inc);
      NextMultiple(k, inc);
    }
  }

  lemma {:induction false} PaintedMiss(s: seq<byte>, start: nat, inc: nat, pixels: seq<byte>, i: nat)
    requires i < |s| && forall k :: 0 <= k < |pixels| ==> i != start + k * inc
    ensures Painted(s, start, inc, pixels)[i] == s[i]
  {
    if pixels != [] {
      var last := |pixels| - 1;
      PaintedMiss(s, start, inc, pixels[..last], i);
      assert i != start + last * inc;
    }
  }

  // Byte i of a frame is on line Line; it belongs to the plane mapped to
  // Residue, where it is pixel Column.
  function Line(i: nat, linesize: nat): nat
    requires linesize > 0
  {
    i / linesize
  }

  function Residue(i: nat, linesize: nat, inc: nat): nat
    requires linesize > 0 && inc > 0
  {
    (i % linesize) % inc
  }

  function Column(i: nat, linesize: nat, inc: nat): nat
    requires linesize > 0 && inc > 0
  {
    (i % linesize) / inc
  }

  lemma Coordinates(row: nat, offset: nat, k: nat, linesize: nat, inc: nat)
    requires linesize > 0 && offset < inc && offset + k * inc < linesize
    ensures var i := row * linesize + offset + k * inc;
            Line(i, linesize) == row && Residue(i, linesize, inc) == offset && Column(i, linesize, inc) == k
  {
    var i := row * linesize + offset + k * inc;
    DivisionIsUnique(i, row, offset + k * inc, linesize);
    DivisionIsUnique(offset + k * inc, k, offset, inc);
  }

  lemma IndexOf(i: nat, linesize: nat, inc: nat)
    requires linesize > 0 && inc > 0
    ensures i == Line(i, linesize) * linesize + Residue(i, linesize, inc) + Column(i, linesize, inc) * inc
  {
    assert i == (i / linesize) * linesize + i % linesize;
    var x := i % linesize;
    assert x == (x / inc) * inc + x % inc;
  }

  // One row paints exactly the bytes of its line that are congruent to its offset.
  lemma PaintedByte(s: seq<byte>, row: nat, offset: nat, linesize: nat, inc: nat, pixels: seq<byte>, i: nat)
    requires linesize > 0 && offset < inc && |pixels| * inc <= linesize && i < |s|
    ensures Painted(s, row * linesize + offset, inc, pixels)[i]
            == if Line(i, linesize) == row && Residue(i, linesize, inc) == offset && Column(i, linesize, inc) < |pixels|
               then pixels[Column(i, linesize, inc)] else s[i]
  {
    hide Line, Residue, Column, Painted;
    var k := Column(i, linesize, inc);
    IndexOf(i, linesize, inc);
    if Line(i, linesize) == row && Residue(i, linesize, inc) == offset && k < |pixels| {
      PaintedHit(s, row * linesize + offset, inc, pixels, k);
    } else {
      forall k' | 0 <= k' < |pixels|
        ensures i != row * linesize + offset + k' * inc
      {
        TimesMonotone(k' + 1, |pixels|, inc);
        NextMultiple(k', inc);
        Coordinates(row, offset, k', linesize, inc);
      }
      PaintedMiss(s, row * linesize + offset, inc, pixels, i);
    }
  }

  ghost predicate RowsFit(rows: seq<seq<byte>>, linesize: nat, inc: nat) {
    forall j :: 0 <= j < |rows| ==> |rows[j]| * inc <= linesize
  }

  lemma {:induction false} DecodedRowsFit(data: seq<byte>, j: nat, total: nat, dp: nat, linesize: nat, inc: nat)
    ensures RowsFit(Rows(data, j, total, dp, linesize, inc).rows, linesize, inc)
    ensures |Rows(data, j, total, dp, linesize, inc).rows| <= if j <= total then total - j else 0
    decreases total - j
  {
    hide Row, LineLength;
    if j < total && |data| >= 2 * j + 2 {
      RowFits(data, dp, LineLength(data, j), linesize, inc);
      DecodedRowsFit(data, j + 1, total, Row(data, dp, LineLength(data, j), linesize, inc).dp, linesize, inc);
    }
  }

  // Byte i is pixel Column of the row on line Line of plane p.
  ghost predicate Owns(p: nat, rows: seq<seq<byte>>, format: Format, height: nat, linesize: nat, i: nat)
    requires linesize > 0 && format.pxInc > 0
  {
    && p < |format.planemap| && format.planemap[p] == Residue(i, linesize, format.pxInc)
    && Line(i, linesize) < height
    && RowsIn(p, height) + Line(i, linesize) < |rows|
    && Column(i, linesize, format.pxInc) < |rows[RowsIn(p, height) + Line(i, linesize)]|
  }

  // Every byte holds the pixel of the plane that owns it, and keeps its value
  // when no plane does.
  lemma {:induction false} FrameByte(s: seq<byte>, rows: seq<seq<byte>>, format: Format, height: nat, linesize: nat, p: nat, i: nat)
    requires format.Distinct() && linesize > 0 && format.pxInc > 0 && i < |s|
    requires |rows| <= RowsIn(|format.planemap|, height) && RowsFit(rows, linesize, format.pxInc)
    ensures Owns(p, rows, format, height, linesize, i) ==>
      PaintedRows(s, rows, format, height, linesize)[i] == rows[RowsIn(p, height) + Line(i, linesize)][Column(i, linesize, format.pxInc)]
    ensures (forall q: nat :: !Owns(q, rows, format, height, linesize, i)) ==>
      PaintedRows(s, rows, format, height, linesize)[i] == s[i]
  {
    hide Painted, PaintedRows, RowsIn, RowStart, Owns, Line, Residue, Column, RowsFit;
    if rows == [] {
      PaintedNoRows(s, format, height, linesize);
      NoRowsNoOwner(p, format, height, linesize, i);
    } else {
      var j := |rows| - 1;
      var row, q := PlaceOf(format, height, linesize, j);
      FitsLess(rows, linesize, format.pxInc);
      FrameByte(s, rows[..j], format, height, linesize, p, i);
      OwnsLess(p, rows, format, height, linesize, i, row, q);
      OwnsLess(q, rows, format, height, linesize, i, row, q);
      assert rows == rows[..j] + [rows[j]];
      PaintedRowsAppend(s, rows[..j], rows[j], format, height, linesize);
      PaintedByte(PaintedRows(s, rows[..j], format, height, linesize), row, format.planemap[q], linesize, format.pxInc, rows[j], i);
      if forall q': nat :: !Owns(q', rows, format, height, linesize, i) {
        forall q': nat
          ensures !Owns(q', rows[..j], format, height, linesize, i)
        {
          OwnsLess(q', rows, format, height, linesize, i, row, q);
        }
      }
    }
  }

  lemma NoRowsNoOwner(p: nat, format: Format, height: nat, linesize: nat, i: nat)
    requires linesize > 0 && format.pxInc > 0
    ensures !Owns(p, [], format, height, linesize, i)
  {
  }

  lemma FitsLess(rows: seq<seq<byte>>, linesize: nat, inc: nat)
    requires rows != [] && RowsFit(rows, linesize, inc)
    ensures RowsFit(rows[..|rows| - 1], linesize, inc) && |rows[|rows| - 1]| * inc <= linesize
  {
    assert rows[|rows| - 1] in rows;
  }

  // The last row is owned where it lies, the others as without it.
  lemma OwnsLess(p: nat, rows: seq<seq<byte>>, format: Format, height: nat, linesize: nat, i: nat, row: nat, q: nat)
    requires format.Distinct() && linesize > 0 && format.pxInc > 0 && rows != []
    requires q < |format.planemap| && row < height && |rows| - 1 == RowsIn(q, height) + row
    ensures var last := rows[|rows| - 1];
            Owns(p, rows, format, height, linesize, i) <==>
              || Owns(p, rows[..|rows| - 1], format, height, linesize, i)
              || (p == q && Line(i, linesize) == row && Residue(i, linesize, format.pxInc) == format.planemap[q]
                  && Column(i, linesize, format.pxInc) < |last|)
    ensures Owns(p, rows[..|rows| - 1], format, height, linesize, i) ==>
              !(Line(i, linesize) == row && Residue(i, linesize, format.pxInc) == format.planemap[q])
    ensures p == q && Line(i, linesize) == row ==> RowsIn(p, height) + Line(i, linesize) == |rows| - 1
    ensures Owns(p, rows[..|rows| - 1], format, height, linesize, i) ==>
              RowsIn(p, height) + Line(i, linesize) < |rows| - 1
  {
    hide Residue, Column;
    var line := Line(i, linesize);
    if line < height && RowsIn(p, height) + line == |rows| - 1 {
      DivisionIsUnique(|rows| - 1, p, line, height);
      DivisionIsUnique(|rows| - 1, q, row, height);
    }
  }

  lemma PlaceOf(format: Format, height: nat, linesize: nat, j: nat) returns (row: nat, q: nat)
    requires j < RowsIn(|format.planemap|, height)
    ensures q < |format.planemap| && row < height && j == RowsIn(q, height) + row
    ensures RowStart(format, height, linesize, j) == row * linesize + format.planemap[q]
  {
    PlaneOf(|format.planemap|, height, j);
    row, q := j % height, j / height;
  }

  // ----- Encoding, and the round trip

  // How an encoder may spell some bytes of a row.
  datatype Piece = Literal(bytes: seq<byte>) | Run(x: byte, n: nat) {
    predicate Valid() {
      if Literal? then 1 <= |bytes| <= 128 else 2 <= n <= 129
    }

    function Pixels(): seq<byte> {
      if Literal? then bytes else Repeat(x, n)
    }

    function Encoded(): (code: seq<byte>)
      requires Valid()
      ensures |code| >= 2
    {
      if Literal? then [|bytes| - 1] + bytes else [257 - n, x]
    }
  }

  predicate ValidRow(row: seq<Piece>) {
    forall i :: 0 <= i < |row| ==> row[i].Valid()
  }

  function RowPixels(row: seq<Piece>): seq<byte> {
    if row == [] then [] else row[0].Pixels() + RowPixels(row[1..])
  }

  function RowCode(row: seq<Piece>): seq<byte>
    requires ValidRow(row)
  {
    if row == [] then [] else row[0].Encoded() + RowCode(row[1..])
  }

  // data has code at dp.
  predicate Has(data: seq<byte>, dp: nat, code: seq<byte>) {
    dp + |code| <= |data| && data[dp..dp + |code|] == code
  }

  lemma HasSplit(data: seq<byte>, dp: nat, a: seq<byte>, b: seq<byte>)
    requires Has(data, dp, a + b)
    ensures Has(data, dp, a) && Has(data, dp + |a|, b)
  {
    var all := data[dp..dp + |a + b|];
    assert data[dp..dp + |a|] == all[..|a|];
    assert data[dp + |a|..dp + |a| + |b|] == all[|a|..];
  }

  lemma PieceIsRead(data: seq<byte>, dp: nat, piece: Piece, room: int, inc: nat)
    requires piece.Valid() && Has(data, dp, piece.Encoded()) && |piece.Pixels()| * inc <= room
    ensures CodeAt(data, dp, room, inc) == Bytes(piece.Pixels(), dp + |piece.Encoded()|)
  {
    var code := piece.Encoded();
    assert data[dp] == data[dp..dp + |code|][0] == code[0];
    assert data[dp + 1] == data[dp..dp + |code|][1] == code[1];
    if piece.Literal? {
      assert data[dp + 1..dp + 1 + |piece.bytes|] == data[dp..dp + |code|][1..] == piece.bytes;
    }
  }

  // A row whose length is right is read back, however it is cut into pieces.
  lemma {:induction false} RowRoundTrip(data: seq<byte>, dp: nat, row: seq<Piece>, room: nat, inc: nat)
    requires ValidRow(row) && Has(data, dp, RowCode(row)) && |RowCode(row)| < TWO_32
    requires |RowPixels(row)| * inc <= room
    ensures Row(data, dp, |RowCode(row)|, room, inc) == RowResult(RowPixels(row), dp + |RowCode(row)|, true)
    decreases |row|
  {
    hide CodeAt, Has, Row, RowCode, RowPixels, Minus32;
    RowParts(row);
    if row == [] {
      RowEmpty(data, dp, room, inc);
    } else {
      hide Piece.Encoded, Piece.Pixels, Piece.Valid;
      var first, rest := row[0], row[1..];
      var code, pixels := first.Encoded(), first.Pixels();
      HasSplit(data, dp, code, RowCode(rest));
      PixelsFit(|pixels|, |RowPixels(rest)|, inc);
      PieceIsRead(data, dp, first, room, inc);
      RowFirst(data, dp, |RowCode(row)|, room, inc, pixels, dp + |code|);
      MinusInRange(|RowCode(row)|, |code|);
      RowRoundTrip(data, dp + |code|, rest, room - |pixels| * inc, inc);
    }
  }

  lemma RowParts(row: seq<Piece>)
    requires ValidRow(row)
    ensures row == [] ==> RowCode(row) == [] && RowPixels(row) == []
    ensures row != [] ==> ValidRow(row[1..]) && row[0].Valid() && RowCode(row) == row[0].Encoded() + RowCode(row[1..])
                          && RowPixels(row) == row[0].Pixels() + RowPixels(row[1..])
  {
  }

  lemma RowEmpty(data: seq<byte>, dp: nat, room: int, inc: nat)
    ensures Row(data, dp, 0, room, inc) == RowResult([], dp, true)
  {
  }

  lemma RowFirst(data: seq<byte>, dp: nat, dlen: nat, room: int, inc: nat, pixels: seq<byte>, dp': nat)
    requires dlen > 0 && CodeAt(data, dp, room, inc) == Bytes(pixels, dp') && dp' > dp
    ensures Row(data, dp, dlen, room, inc) == Row(data, dp', Minus32(dlen, dp' - dp), room - |pixels| * inc, inc).After(pixels)
  {
    hide CodeAt, Minus32;
  }

  lemma PixelsFit(a: nat, b: nat, inc: nat)
    ensures (a + b) * inc == a * inc + b * inc && a * inc >= 0 && b * inc >= 0
  {
  }

  lemma MinusInRange(x: nat, y: nat)
    requires y <= x < TWO_32
    ensures Minus32(x, y) == x - y
  {
  }

  // The rows of all planes, plane by plane.
  predicate ValidImage(image: seq<seq<Piece>>) {
    forall j :: 0 <= j < |image| ==> ValidRow(image[j]) && |RowCode(image[j])| <= 0xFFFF
  }

  function ImagePixels(image: seq<seq<Piece>>): (rows: seq<seq<byte>>)
    ensures |rows| == |image| && forall j :: 0 <= j < |rows| ==> rows[j] == RowPixels(image[j])
  {
    seq(|image|, j requires 0 <= j < |image| => RowPixels(image[j]))
  }

  // The table of line lengths.
  function Table(image: seq<seq<Piece>>): (table: seq<byte>)
    requires ValidImage(image)
    ensures |table| == 2 * |image|
  {
    seq(2 * |image|, i requires 0 <= i < 2 * |image| =>
      if i % 2 == 0 then |RowCode(image[i / 2])| / 0x100 else |RowCode(image[i / 2])| % 0x100)
  }

  function Bodies(image: seq<seq<Piece>>): seq<byte>
    requires ValidImage(image)
  {
    if image == [] then [] else
      assert forall j :: 0 <= j < |image| - 1 ==> image[1..][j] == image[j + 1];
      RowCode(image[0]) + Bodies(image[1..])
  }

  lemma TableIsRead(image: seq<seq<Piece>>, data: seq<byte>, j: nat)
    requires ValidImage(image) && Has(data, 0, Table(image)) && j < |image|
    ensures LineLength(data, j) == |RowCode(image[j])|
  {
    var table := Table(image);
    assert data[2 * j] == data[0..0 + |table|][2 * j] == table[2 * j];
    assert data[2 * j + 1] == data[0..0 + |table|][2 * j + 1] == table[2 * j + 1];
  }

  lemma {:induction false} RowsRoundTrip(data: seq<byte>, image: seq<seq<Piece>>, j: nat, dp: nat, linesize: nat, inc: nat)
    requires ValidImage(image) && j <= |image| && RowsFit(ImagePixels(image), linesize, inc)
    requires Has(data, 0, Table(image)) && ValidImage(image[j..]) && Has(data, dp, Bodies(image[j..]))
    ensures Rows(data, j, |image|, dp, linesize, inc) == FrameResult(ImagePixels(image)[j..], true)
    decreases |image| - j
  {
    hide Rows, Row, LineLength, Has, RowPixels, RowCode, Table, Bodies;
    if j == |image| {
      RowsEnd(data, j, dp, linesize, inc, []);
      NothingAfter(Rows(data, j, j, dp, linesize, inc));
    } else {
      var row := image[j];
      BodiesParts(image, j);
      HasSplit(data, dp, RowCode(row), Bodies(image[j + 1..]));
      TableInside(image, data);
      TableIsRead(image, data, j);
      RowFitsHere(image, j, linesize, inc);
      RowRoundTrip(data, dp, row, linesize, inc);
      RowsRoundTrip(data, image, j + 1, dp + |RowCode(row)|, linesize, inc);
      RowsFirst(data, j, |image|, dp, linesize, inc, RowPixels(row), dp + |RowCode(row)|);
      assert ImagePixels(image)[j..] == [RowPixels(row)] + ImagePixels(image)[j + 1..];
    }
  }

  lemma BodiesParts(image: seq<seq<Piece>>, j: nat)
    requires ValidImage(image) && j < |image|
    ensures ValidImage(image[j..]) && ValidImage(image[j + 1..])
    ensures Bodies(image[j..]) == RowCode(image[j]) + Bodies(image[j + 1..])
  {
    assert image[j..][0] == image[j] && image[j..][1..] == image[j + 1..];
  }

  lemma RowFitsHere(image: seq<seq<Piece>>, j: nat, linesize: nat, inc: nat)
    requires j < |image| && RowsFit(ImagePixels(image), linesize, inc)
    ensures |RowPixels(image[j])| * inc <= linesize
  {
    assert ImagePixels(image)[j] == RowPixels(image[j]);
  }

  lemma RowsFirst(data: seq<byte>, j: nat, total: nat, dp: nat, linesize: nat, inc: nat, pixels: seq<byte>, dp': nat)
    requires j < total && 2 * j + 2 <= |data|
    requires Row(data, dp, LineLength(data, j), linesize, inc) == RowResult(pixels, dp', true)
    ensures Rows(data, j, total, dp, linesize, inc) == Rows(data, j + 1, total, dp', linesize, inc).After([pixels])
  {
    hide Row, LineLength;
  }

  lemma TableInside(image: seq<seq<Piece>>, data: seq<byte>)
    requires ValidImage(image) && Has(data, 0, Table(image))
    ensures |data| >= 2 * |image|
  {
  }

  // A well-formed packet decodes to its image, whatever it ends with.
  lemma PacketRoundTrip(image: seq<seq<Piece>>, tail: seq<byte>, linesize: nat, inc: nat)
    requires ValidImage(image) && RowsFit(ImagePixels(image), linesize, inc)
    ensures Rows(Table(image) + Bodies(image) + tail, 0, |image|, 2 * |image|, linesize, inc)
            == FrameResult(ImagePixels(image), true)
  {
    hide Table, Bodies, RowsFit, ValidImage, Rows, ImagePixels;
    var data := Table(image) + Bodies(image) + tail;
    HasHere(Table(image), Bodies(image), tail);
    assert image[0..] == image && ImagePixels(image)[0..] == ImagePixels(image);
    RowsRoundTrip(data, image, 0, 2 * |image|, linesize, inc);
  }

  lemma HasHere(a: seq<byte>, b: seq<byte>, c: seq<byte>)
    ensures Has(a + b + c, 0, a) && Has(a + b + c, |a|, b)
  {
  }

  // Pixel k of line `line` of plane p stands where a viewer of the frame looks
  // for it, whatever the frame held before.
  lemma PixelRecovered(s: seq<byte>, rows: seq<seq<byte>>, format: Format, height: nat, linesize: nat,
      p: nat, line: nat, k: nat, i: nat)
    requires format.Distinct() && |rows| == RowsIn(|format.planemap|, height) && |s| >= height * linesize
    requires RowsFit(rows, linesize, format.pxInc)
    requires p < |format.planemap| && line < height && RowsIn(p, height) + line < |rows|
    requires k < |rows[RowsIn(p, height) + line]|
    requires i == line * linesize + format.planemap[p] + k * format.pxInc
    ensures i < |s| && PaintedRows(s, rows, format, height, linesize)[i] == rows[RowsIn(p, height) + line][k]
  {
    hide PaintedRows, Line, Residue, Column, RowsIn, Painted;
    var inc := format.pxInc;
    PixelInLine(rows, RowsIn(p, height) + line, format.planemap[p], k, linesize, inc);
    Coordinates(line, format.planemap[p], k, linesize, inc);
    TimesMonotone(line + 1, height, linesize);
    NextMultiple(line, linesize);
    FrameByte(s, rows, format, height, linesize, p, i);
  }

  lemma PixelInLine(rows: seq<seq<byte>>, j: nat, offset: nat, k: nat, linesize: nat, inc: nat)
    requires RowsFit(rows, linesize, inc) && j < |rows| && k < |rows[j]| && offset < inc
    ensures offset + k * inc < linesize
  {
    TimesMonotone(k + 1, |rows[j]|, inc);
    NextMultiple(k, inc);
  }

  // ----- Packets that are not well formed

  // A piece that does not fit ends the row behind its count, inside the piece.
  lemma WidePieceEndsRow(data: seq<byte>, dp: nat, dlen: nat, piece: Piece, room: int, inc: nat)
    requires piece.Valid() && dlen > 0 && dp + 1 < |data| && data[dp] == piece.Encoded()[0]
    requires room < |piece.Pixels()| * inc
    ensures Row(data, dp, dlen, room, inc) == RowResult([], dp + 1, true)
  {
  }

  // A length that ends inside a piece does not end the row: it wraps around,
  // and the row goes on until it leaves for another reason.
  lemma ShortLengthRunsOn(data: seq<byte>, dp: nat, dlen: nat, piece: Piece, room: int, inc: nat)
    requires piece.Valid() && Has(data, dp, piece.Encoded()) && |piece.Pixels()| * inc <= room
    requires 0 < dlen < |piece.Encoded()|
    ensures Row(data, dp, dlen, room, inc)
            == Row(data, dp + |piece.Encoded()|, TWO_32 + dlen - |piece.Encoded()|, room - |piece.Pixels()| * inc, inc)
                 .After(piece.Pixels())
  {
    hide Has;
    PieceIsRead(data, dp, piece, room, inc);
    hide CodeAt, Row, Piece.Pixels;
    var code := |piece.Encoded()|;
    RowFirst(data, dp, dlen, room, inc, piece.Pixels(), dp + code);
    DivisionIsUnique(dlen - code, -1, TWO_32 + dlen - code, TWO_32);
  }

  // The data end inside some code that begins at dp.
  predicate EndsWithin(data: seq<byte>, dp: nat, code: seq<byte>) {
    |data| < dp + |code| && (dp <= |data| ==> data[dp..] <= code)
  }

  lemma PieceCutShort(data: seq<byte>, dp: nat, piece: Piece, room: int, inc: nat)
    requires piece.Valid() && EndsWithin(data, dp, piece.Encoded()) && |piece.Pixels()| * inc <= room
    ensures CodeAt(data, dp, room, inc).Leave? && !CodeAt(data, dp, room, inc).ok
  {
    if |data| - dp > 1 {
      assert data[dp] == data[dp..][0] == piece.Encoded()[0];
    }
  }

  lemma EndsWithinRest(data: seq<byte>, dp: nat, a: seq<byte>, b: seq<byte>)
    requires EndsWithin(data, dp, a + b)
    ensures EndsWithin(data, dp, a) || (Has(data, dp, a) && EndsWithin(data, dp + |a|, b) && b != [])
  {
    if dp + |a| <= |data| {
      var rest := data[dp..];
      assert data[dp..dp + |a|] == rest[..|a|] == (a + b)[..|a|] == a;
      assert data[dp + |a|..] == rest[|a|..] && (a + b)[|a|..] == b;
    } else if dp <= |data| {
      assert data[dp..] <= a;
    }
  }

  lemma {:induction false} RowCutShort(data: seq<byte>, dp: nat, row: seq<Piece>, room: nat, inc: nat)
    requires ValidRow(row) && row != [] && EndsWithin(data, dp, RowCode(row)) && |RowCode(row)| < TWO_32
    requires |RowPixels(row)| * inc <= room
    ensures !Row(data, dp, |RowCode(row)|, room, inc).ok
    decreases |row|
  {
    hide CodeAt, Has, EndsWithin, Row, RowCode, RowPixels, Minus32, Piece.Encoded, Piece.Pixels, Piece.Valid;
    RowParts(row);
    var first, rest := row[0], row[1..];
    var code, pixels := first.Encoded(), first.Pixels();
    PixelsFit(|pixels|, |RowPixels(rest)|, inc);
    EndsWithinRest(data, dp, code, RowCode(rest));
    if EndsWithin(data, dp, code) {
      PieceCutShort(data, dp, first, room, inc);
      RowLeaves(data, dp, |RowCode(row)|, room, inc);
    } else {
      RowParts(rest);
      PieceIsRead(data, dp, first, room, inc);
      RowFirst(data, dp, |RowCode(row)|, room, inc, pixels, dp + |code|);
      MinusInRange(|RowCode(row)|, |code|);
      RowCutShort(data, dp + |code|, rest, room - |pixels| * inc, inc);
    }
  }

  lemma RowLeaves(data: seq<byte>, dp: nat, dlen: nat, room: int, inc: nat)
    requires dlen > 0 && CodeAt(data, dp, room, inc).Leave? && !CodeAt(data, dp, room, inc).ok
    ensures !Row(data, dp, dlen, room, inc).ok
  {
    hide CodeAt;
  }

  // The line lengths that the data do have are those of the image.
  ghost predicate LengthsAre(data: seq<byte>, image: seq<seq<Piece>>)
    requires ValidImage(image)
  {
    forall j :: 0 <= j < |image| && 2 * j + 2 <= |data| ==> LineLength(data, j) == |RowCode(image[j])|
  }

  lemma {:induction false} RowsCutShort(data: seq<byte>, image: seq<seq<Piece>>, j: nat, dp: nat, linesize: nat, inc: nat)
    requires ValidImage(image) && j <= |image| && RowsFit(ImagePixels(image), linesize, inc)
    requires LengthsAre(data, image) && ValidImage(image[j..]) && 2 * j <= |data|
    requires (|data| < 2 * |image| <= dp) || (dp <= |data| && EndsWithin(data, dp, Bodies(image[j..])))
    ensures !Rows(data, j, |image|, dp, linesize, inc).ok
    decreases |image| - j
  {
    hide Rows, Row, LineLength, Has, EndsWithin, RowPixels, RowCode, Bodies;
    if j == |image| {
      NoBodyLeft(data, dp, image[j..]);
    } else if |data| < 2 * j + 2 {
      TableCutShort(data, j, |image|, dp, linesize, inc);
    } else {
      var row := image[j];
      assert LineLength(data, j) == |RowCode(row)|;
      BodiesParts(image, j);
      RowFitsHere(image, j, linesize, inc);
      RowParts(row);
      if row == [] {
        RowEmpty(data, dp, linesize, inc);
        RowsFirst(data, j, |image|, dp, linesize, inc, [], dp);
        assert RowCode(row) + Bodies(image[j + 1..]) == Bodies(image[j + 1..]);
        RowsCutShort(data, image, j + 1, dp, linesize, inc);
      } else {
        if |data| < dp {
          CodeNotEmpty(row);
          NothingLeft(data, dp, RowCode(row));
        } else {
          EndsWithinRest(data, dp, RowCode(row), Bodies(image[j + 1..]));
        }
        if EndsWithin(data, dp, RowCode(row)) {
          RowCutShort(data, dp, row, linesize, inc);
          RowFails(data, j, |image|, dp, linesize, inc);
        } else {
          RowRoundTrip(data, dp, row, linesize, inc);
          RowsFirst(data, j, |image|, dp, linesize, inc, RowPixels(row), dp + |RowCode(row)|);
          HasInside(data, dp, RowCode(row));
          RowsCutShort(data, image, j + 1, dp + |RowCode(row)|, linesize, inc);
        }
      }
    }
  }

  lemma NoBodyLeft(data: seq<byte>, dp: nat, image: seq<seq<Piece>>)
    requires ValidImage(image)
    ensures image == [] && dp <= |data| ==> !EndsWithin(data, dp, Bodies(image))
  {
  }

  lemma NothingLeft(data: seq<byte>, dp: nat, code: seq<byte>)
    requires |data| < dp && code != []
    ensures EndsWithin(data, dp, code)
  {
  }

  lemma CodeNotEmpty(row: seq<Piece>)
    requires ValidRow(row) && row != []
    ensures RowCode(row) != []
  {
  }

  lemma HasInside(data: seq<byte>, dp: nat, code: seq<byte>)
    requires Has(data, dp, code)
    ensures dp + |code| <= |data|
  {
  }

  lemma TableCutShort(data: seq<byte>, j: nat, total: nat, dp: nat, linesize: nat, inc: nat)
    requires j < total && |data| < 2 * j + 2
    ensures !Rows(data, j, total, dp, linesize, inc).ok
  {
  }

  lemma RowFails(data: seq<byte>, j: nat, total: nat, dp: nat, linesize: nat, inc: nat)
    requires j < total && 2 * j + 2 <= |data| && !Row(data, dp, LineLength(data, j), linesize, inc).ok
    ensures !Rows(data, j, total, dp, linesize, inc).ok
  {
    hide Row, LineLength;
  }

  // A well-formed packet that is cut short anywhere is reported as invalid.
  lemma TruncationIsReported(image: seq<seq<Piece>>, n: nat, linesize: nat, inc: nat)
    requires ValidImage(image) && RowsFit(ImagePixels(image), linesize, inc)
    requires n < |Table(image)| + |Bodies(image)|
    ensures !Rows((Table(image) + Bodies(image))[..n], 0, |image|, 2 * |image|, linesize, inc).ok
  {
    hide Bodies, Rows, RowsFit, RowCode;
    var table, bodies := Table(image), Bodies(image);
    var data := (table + bodies)[..n];
    forall j | 0 <= j < |image| && 2 * j + 2 <= |data| ensures LineLength(data, j) == |RowCode(image[j])| {
      assert data[2 * j] == table[2 * j] && data[2 * j + 1] == table[2 * j + 1];
    }
    assert image[0..] == image;
    if |table| <= n {
      assert data[|table|..] == bodies[..n - |table|];
    }
    RowsCutShort(data, image, 0, 2 * |image|, linesize, inc);
  }
}
