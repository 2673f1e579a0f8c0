/** The sprite binary layout shared by both rasterising scripts: a frame
    count byte, then per frame a width byte, a height byte and the R, G, B
    bytes of every pixel, rows top to bottom and each row left to right. */
module SpriteFormat {
  import opened Wrappers

  /** One unsigned 8-bit value, what Python's `bytearray` accepts. */
  type byte = x: int | 0 <= x < 256

  datatype Rgb = Rgb(r: byte, g: byte, b: byte)

  /** A frame of the sprite: `rows` top to bottom, each row left to right. */
  datatype Frame = Frame(width: nat, height: nat, rows: seq<seq<Rgb>>)
  {
    predicate Valid()
    {
      |rows| == height && forall y :: 0 <= y < |rows| ==> |rows[y]| == width
    }
  }

  /** Frames the single-byte fields can describe: fewer than 256 of them,
      each well formed with both sides below 256. */
  predicate Encodable(frames: seq<Frame>)
  {
    |frames| < 256 && forall i :: 0 <= i < |frames| ==> FrameEncodable(frames[i])
  }

  predicate FrameEncodable(f: Frame)
  {
    f.Valid() && f.width < 256 && f.height < 256
  }

  function RowBytes(row: seq<Rgb>): (bs: seq<byte>)
    ensures |bs| == 3 * |row|
    ensures forall x :: 0 <= x < |row| ==> bs[3 * x] == row[x].r && bs[3 * x + 1] == row[x].g && bs[3 * x + 2] == row[x].b
  {
    if |row| == 0 then [] else [row[0].r, row[0].g, row[0].b] + RowBytes(row[1..])
  }

  function PixelBytes(rows: seq<seq<Rgb>>): seq<byte>
  {
    if |rows| == 0 then [] else RowBytes(rows[0]) + PixelBytes(rows[1..])
  }

  function FrameBytes(f: Frame): seq<int>
  {
    [f.width, f.height] + PixelBytes(f.rows)
  }

  function FramesBytes(frames: seq<Frame>): seq<int>
  {
    if |frames| == 0 then [] else FrameBytes(frames[0]) + FramesBytes(frames[1..])
  }

  /** The byte list the scripts build, before `bytearray` checks its range. */
  function Serialize(frames: seq<Frame>): (bs: seq<int>)
    ensures |bs| > 0 && bs[0] == |frames|
  {
    [|frames|] + FramesBytes(frames)
  }

  /** The bytes one frame occupies. */
  function BlockSize(f: Frame): nat
  {
    2 + 3 * f.width * f.height
  }

  /** The bytes all frames occupy after the count byte. */
  function TotalSize(frames: seq<Frame>): nat
  {
    if |frames| == 0 then 0 else BlockSize(frames[0]) + TotalSize(frames[1..])
  }

  /** Where frame `i`'s block starts. */
  function BlockOffset(frames: seq<Frame>, i: nat): nat
    requires i <= |frames|
  {
    1 + TotalSize(frames[..i])
  }

  // ----- Layout -----

  lemma {:induction false} PixelBytesAppend(a: seq<seq<Rgb>>, b: seq<seq<Rgb>>)
    ensures PixelBytes(a + b) == PixelBytes(a) + PixelBytes(b)
  {
    if |a| > 0 {
      assert (a + b)[1..] == a[1..] + b;
      PixelBytesAppend(a[1..], b);
    } else {
      assert a + b == b;
    }
  }

  lemma MulSucc(a: nat, n: nat)
    requires n > 0
    ensures a * n == a + a * (n - 1)
  {
  }

  lemma {:induction false} PixelBytesLength(rows: seq<seq<Rgb>>, w: nat)
    requires forall y :: 0 <= y < |rows| ==> |rows[y]| == w
    ensures |PixelBytes(rows)| == 3 * w * |rows|
  {
    if |rows| > 0 {
      PixelBytesLength(rows[1..], w);
      MulSucc(3 * w, |rows|);
      assert PixelBytes(rows) == RowBytes(rows[0]) + PixelBytes(rows[1..]);
    }
  }

  /** Row `y` follows the bytes of the rows above it. */
  lemma PixelBytesRow(rows: seq<seq<Rgb>>, y: nat)
    requires y < |rows|
    ensures |PixelBytes(rows[..y])| + |RowBytes(rows[y])| <= |PixelBytes(rows)|
    ensures forall j :: 0 <= j < |RowBytes(rows[y])| ==> PixelBytes(rows)[|PixelBytes(rows[..y])| + j] == RowBytes(rows[y])[j]
  {
    assert rows == rows[..y] + ([rows[y]] + rows[y + 1..]);
    PixelBytesAppend(rows[..y], [rows[y]] + rows[y + 1..]);
    PixelBytesAppend([rows[y]], rows[y + 1..]);
    assert PixelBytes([rows[y]]) == RowBytes(rows[y]) + PixelBytes([]);
  }

  lemma {:induction false} FramesBytesAppend(a: seq<Frame>, b: seq<Frame>)
    ensures FramesBytes(a + b) == FramesBytes(a) + FramesBytes(b)
    ensures TotalSize(a + b) == TotalSize(a) + TotalSize(b)
  {
    if |a| > 0 {
      assert (a + b)[1..] == a[1..] + b;
      FramesBytesAppend(a[1..], b);
    } else {
      assert a + b == b;
    }
  }

  lemma {:induction false} FramesBytesLength(frames: seq<Frame>)
    requires forall i :: 0 <= i < |frames| ==> frames[i].Valid()
    ensures |FramesBytes(frames)| == TotalSize(frames)
  {
    if |frames| > 0 {
      PixelBytesLength(frames[0].rows, frames[0].width);
      FramesBytesLength(frames[1..]);
    }
  }

  /** The encoded length is one count byte plus, per frame, two size bytes
      and three bytes per pixel. */
  lemma SerializeLength(frames: seq<Frame>)
    requires forall i :: 0 <= i < |frames| ==> frames[i].Valid()
    ensures |Serialize(frames)| == 1 + TotalSize(frames)
  {
    FramesBytesLength(frames);
  }

  /** The serialised bytes, seen from frame `i`'s block onwards, begin with
      that frame's own bytes. */
  lemma BlockAt(frames: seq<Frame>, i: nat)
    requires i < |frames|
    requires forall j :: 0 <= j < |frames| ==> frames[j].Valid()
    ensures BlockOffset(frames, i) + |FrameBytes(frames[i])| <= |Serialize(frames)|
    ensures forall j :: 0 <= j < |FrameBytes(frames[i])| ==> Serialize(frames)[BlockOffset(frames, i) + j] == FrameBytes(frames[i])[j]
  {
    var before := frames[..i];
    var after := frames[i + 1..];
    assert frames == before + ([frames[i]] + after);
    FramesBytesAppend(before, [frames[i]] + after);
    FramesBytesAppend([frames[i]], after);
    assert FramesBytes([frames[i]]) == FrameBytes(frames[i]) + FramesBytes([]);
    FramesBytesLength(before);
    assert forall j :: 0 <= j < |before| ==> before[j].Valid();
  }

  /** Frame `i`'s block starts with its width byte and then its height byte. */
  lemma SerializeFrameHeader(frames: seq<Frame>, i: nat)
    requires i < |frames|
    requires forall j :: 0 <= j < |frames| ==> frames[j].Valid()
    ensures BlockOffset(frames, i) + 1 < |Serialize(frames)|
    ensures Serialize(frames)[BlockOffset(frames, i)] == frames[i].width
    ensures Serialize(frames)[BlockOffset(frames, i) + 1] == frames[i].height
  {
    BlockAt(frames, i);
    var fb := FrameBytes(frames[i]);
    assert fb[0] == frames[i].width && fb[1] == frames[i].height;
  }

  /** Pixel x of row y follows the bytes of the rows above and x pixels of its own row. */
  lemma RowPixel(rows: seq<seq<Rgb>>, y: nat, x: nat)
    requires y < |rows| && x < |rows[y]|
    ensures var q := |PixelBytes(rows[..y])| + 3 * x;
            && q + 2 < |PixelBytes(rows)|
            && PixelBytes(rows)[q] == rows[y][x].r
            && PixelBytes(rows)[q + 1] == rows[y][x].g
            && PixelBytes(rows)[q + 2] == rows[y][x].b
  {
    var t := 3 * x;
    PixelBytesAt(rows, y, t);
    PixelBytesAt(rows, y, t + 1);
    PixelBytesAt(rows, y, t + 2);
  }

  lemma PixelBytesAt(rows: seq<seq<Rgb>>, y: nat, j: nat)
    requires y < |rows| && j < |RowBytes(rows[y])|
    ensures |PixelBytes(rows[..y])| + j < |PixelBytes(rows)|
    ensures PixelBytes(rows)[|PixelBytes(rows[..y])| + j] == RowBytes(rows[y])[j]
  {
    PixelBytesRow(rows, y);
  }

  lemma PixelOffset(w: nat, y: nat, x: nat, above: nat)
    requires above == 3 * w * y
    ensures 3 * (y * w + x) == above + 3 * x
  {
  }

  /** Within a frame's bytes, pixel (x, y) sits at 2 + 3(y·width + x) as R, G, B. */
  lemma FramePixel(f: Frame, y: nat, x: nat)
    requires f.Valid() && y < f.height && x < f.width
    ensures y < |f.rows| && x < |f.rows[y]|
    ensures var p := 2 + 3 * (y * f.width + x);
            && p + 2 < |FrameBytes(f)|
            && FrameBytes(f)[p] == f.rows[y][x].r
            && FrameBytes(f)[p + 1] == f.rows[y][x].g
            && FrameBytes(f)[p + 2] == f.rows[y][x].b
  {
    RowPixel(f.rows, y, x);
    var above := |PixelBytes(f.rows[..y])|;
    PixelBytesLength(f.rows[..y], f.width);
    assert |f.rows[..y]| == y;
    PixelOffset(f.width, y, x, above);
    assert FrameBytes(f)[2..] == PixelBytes(f.rows);
  }

  /** Pixel (x, y) of frame `i` sits at offset 2 + 3(y·width + x) in the
      frame's block, as R, G, B: pixels are row-major and channels in R, G, B order. */
  lemma SerializePixel(frames: seq<Frame>, i: nat, y: nat, x: nat)
    requires i < |frames|
    requires forall j :: 0 <= j < |frames| ==> frames[j].Valid()
    requires y < frames[i].height && x < frames[i].width
    ensures y < |frames[i].rows| && x < |frames[i].rows[y]|
    ensures var p := BlockOffset(frames, i) + 2 + 3 * (y * frames[i].width + x);
            && p + 2 < |Serialize(frames)|
            && Serialize(frames)[p] == frames[i].rows[y][x].r
            && Serialize(frames)[p + 1] == frames[i].rows[y][x].g
            && Serialize(frames)[p + 2] == frames[i].rows[y][x].b
  {
    FramePixel(frames[i], y, x);
    BlockAt(frames, i);
    var q := 2 + 3 * (y * frames[i].width + x);
    var o := BlockOffset(frames, i);
    var fb := FrameBytes(frames[i]);
    assert Serialize(frames)[o + q] == fb[q];
    assert Serialize(frames)[o + (q + 1)] == fb[q + 1];
    assert Serialize(frames)[o + (q + 2)] == fb[q + 2];
  }

  // ----- Range of the byte values -----

  /** Every value lies in 0..255. */
  predicate AllBytes(xs: seq<int>)
  {
    forall k :: 0 <= k < |xs| ==> 0 <= xs[k] < 256
  }

  /** Python's `bytearray(values)`: the same values as bytes, or `None` (it
      raises) when any value lies outside 0..255. */
  function ToBytes(xs: seq<int>): (r: Option<seq<byte>>)
    ensures r.Some? <==> AllBytes(xs)
    ensures r.Some? ==> r.value == xs
  {
    if AllBytes(xs) then
      Some(seq(|xs|, k requires 0 <= k < |xs| && 0 <= xs[k] < 256 => xs[k] as byte))
    else None
  }

  lemma {:induction false} FramesBytesInRange(frames: seq<Frame>)
    requires forall i :: 0 <= i < |frames| ==> FrameEncodable(frames[i])
    ensures AllBytes(FramesBytes(frames))
  {
    if |frames| > 0 {
      FramesBytesInRange(frames[1..]);
      var head := FrameBytes(frames[0]);
      assert AllBytes(head);
      assert FramesBytes(frames) == head + FramesBytes(frames[1..]);
    }
  }

  /** `bytearray` accepts the serialised list exactly when the frames fit the
      single-byte fields: the count, every width and every height below 256. */
  lemma SerializeFitsBytes(frames: seq<Frame>)
    requires forall i :: 0 <= i < |frames| ==> frames[i].Valid()
    ensures ToBytes(Serialize(frames)).Some? <==> Encodable(frames)
  {
    if Encodable(frames) {
      FramesBytesInRange(frames);
      assert Serialize(frames) == [|frames|] + FramesBytes(frames);
    } else if |frames| < 256 {
      var i :| 0 <= i < |frames| && !FrameEncodable(frames[i]);
      SerializeFrameHeader(frames, i);
    }
  }

  // ----- Decoding -----

  /** `w` pixels, three bytes each; `None` when fewer than 3·w bytes remain. */
  function DecodeRow(w: nat, bs: seq<byte>): (r: Option<(seq<Rgb>, seq<byte>)>)
    ensures r.Some? <==> 3 * w <= |bs|
    ensures r.Some? ==> |r.value.0| == w && bs == RowBytes(r.value.0) + r.value.1
    decreases w
  {
    if w == 0 then Some(([], bs))
    else if |bs| < 3 then None
    else
      match DecodeRow(w - 1, bs[3..])
      case None => None
      case Some((row, rest)) => Some(([Rgb(bs[0], bs[1], bs[2])] + row, rest))
  }

  /** `h` rows of `w` pixels. */
  function DecodeRows(h: nat, w: nat, bs: seq<byte>): (r: Option<(seq<seq<Rgb>>, seq<byte>)>)
    ensures r.Some? ==> |r.value.0| == h && (forall y :: 0 <= y < h ==> |r.value.0[y]| == w)
    ensures r.Some? ==> bs == PixelBytes(r.value.0) + r.value.1
    decreases h
  {
    if h == 0 then Some(([], bs))
    else
      var head := DecodeRow(w, bs);
      if head.None? then None
      else
        var tail := DecodeRows(h - 1, w, head.value.1);
        if tail.None? then None
        else
          RowsJoin(bs, head.value.0, head.value.1, tail.value.0, tail.value.1);
          Some(([head.value.0] + tail.value.0, tail.value.1))
  }

  lemma RowsJoin(bs: seq<byte>, row: seq<Rgb>, rest: seq<byte>, rows: seq<seq<Rgb>>, rest': seq<byte>)
    requires bs == RowBytes(row) + rest
    requires rest == PixelBytes(rows) + rest'
    ensures bs == PixelBytes([row] + rows) + rest'
  {
    var all := [row] + rows;
    assert all[1..] == rows;
    assert PixelBytes(all) == RowBytes(row) + PixelBytes(rows);
  }

  /** A width byte, a height byte, then the pixels. */
  function DecodeFrame(bs: seq<byte>): (r: Option<(Frame, seq<byte>)>)
    ensures r.Some? ==> FrameEncodable(r.value.0) && bs == FrameBytes(r.value.0) + r.value.1
  {
    if |bs| < 2 then None
    else
      match DecodeRows(bs[1], bs[0], bs[2..])
      case None => None
      case Some((rows, rest)) => Some((Frame(bs[0], bs[1], rows), rest))
  }

  /** `n` frames one after another. */
  function DecodeFrames(n: nat, bs: seq<byte>): (r: Option<(seq<Frame>, seq<byte>)>)
    ensures r.Some? ==> |r.value.0| == n && (forall i :: 0 <= i < n ==> FrameEncodable(r.value.0[i]))
    ensures r.Some? ==> bs == FramesBytes(r.value.0) + r.value.1
    decreases n
  {
    if n == 0 then Some(([], bs))
    else
      var head := DecodeFrame(bs);
      if head.None? then None
      else
        var tail := DecodeFrames(n - 1, head.value.1);
        if tail.None? then None
        else
          FramesJoin(bs, head.value.0, head.value.1, tail.value.0, tail.value.1);
          FramesEncodableCons(head.value.0, tail.value.0);
          Some(([head.value.0] + tail.value.0, tail.value.1))
  }

  lemma FramesJoin(bs: seq<byte>, f: Frame, rest: seq<byte>, fs: seq<Frame>, rest': seq<byte>)
    requires bs == FrameBytes(f) + rest
    requires rest == FramesBytes(fs) + rest'
    ensures bs == FramesBytes([f] + fs) + rest'
  {
    var all := [f] + fs;
    assert all[1..] == fs;
    assert FramesBytes(all) == FrameBytes(f) + FramesBytes(fs);
  }

  lemma FramesEncodableCons(f: Frame, fs: seq<Frame>)
    requires FrameEncodable(f)
    requires forall i :: 0 <= i < |fs| ==> FrameEncodable(fs[i])
    ensures forall i :: 0 <= i < |fs| + 1 ==> FrameEncodable(([f] + fs)[i])
  {
  }

  /** A whole sprite file: the count byte, that many frames, and nothing after. */
  function Decode(bs: seq<byte>): (r: Option<seq<Frame>>)
    ensures r.Some? ==> Encodable(r.value) && bs == Serialize(r.value)
  {
    if |bs| == 0 then None
    else
      match DecodeFrames(bs[0], bs[1..])
      case Some((frames, rest)) => if rest == [] then Some(frames) else None
      case None => None
  }

  // ----- Round trip -----

  lemma {:induction false} DecodeRowOf(row: seq<Rgb>, rest: seq<byte>)
    ensures DecodeRow(|row|, RowBytes(row) + rest) == Some((row, rest))
  {
    if |row| > 0 {
      var bs := RowBytes(row) + rest;
      assert RowBytes(row) == [row[0].r, row[0].g, row[0].b] + RowBytes(row[1..]);
      DecodeRowOf(row[1..], rest);
      assert bs[3..] == RowBytes(row[1..]) + rest;
      assert Rgb(bs[0], bs[1], bs[2]) == row[0];
      assert [row[0]] + row[1..] == row;
    } else {
      assert RowBytes(row) + rest == rest;
    }
  }

  lemma {:induction false} DecodeRowsOf(rows: seq<seq<Rgb>>, w: nat, rest: seq<byte>)
    requires forall y :: 0 <= y < |rows| ==> |rows[y]| == w
    ensures DecodeRows(|rows|, w, PixelBytes(rows) + rest) == Some((rows, rest))
  {
    if |rows| > 0 {
      var tail := PixelBytes(rows[1..]) + rest;
      assert PixelBytes(rows) + rest == RowBytes(rows[0]) + tail;
      DecodeRowOf(rows[0], tail);
      assert DecodeRow(w, PixelBytes(rows) + rest) == Some((rows[0], tail));
      DecodeRowsOf(rows[1..], w, rest);
      assert [rows[0]] + rows[1..] == rows;
    } else {
      assert PixelBytes(rows) + rest == rest;
    }
  }

  lemma DecodeFrameOf(f: Frame, rest: seq<byte>, bs: seq<byte>)
    requires FrameEncodable(f) && bs == FrameBytes(f) + rest
    ensures DecodeFrame(bs) == Some((f, rest))
  {
    assert bs[2..] == PixelBytes(f.rows) + rest;
    DecodeRowsOf(f.rows, f.width, rest);
  }

  lemma {:induction false} DecodeFramesOf(frames: seq<Frame>, rest: seq<byte>, bs: seq<byte>)
    requires forall i :: 0 <= i < |frames| ==> FrameEncodable(frames[i])
    requires bs == FramesBytes(frames) + rest
    ensures DecodeFrames(|frames|, bs) == Some((frames, rest))
  {
    if |frames| > 0 {
      var tail := bs[|FrameBytes(frames[0])|..];
      FramesSplit(frames, rest, bs);
      DecodeFrameOf(frames[0], tail, bs);
      DecodeFramesOf(frames[1..], rest, tail);
      assert [frames[0]] + frames[1..] == frames;
    } else {
      assert bs == rest;
    }
  }

  lemma FramesSplit(frames: seq<Frame>, rest: seq<byte>, bs: seq<byte>)
    requires |frames| > 0 && bs == FramesBytes(frames) + rest
    ensures var n := |FrameBytes(frames[0])|;
            n <= |bs| && bs == FrameBytes(frames[0]) + bs[n..] && bs[n..] == FramesBytes(frames[1..]) + rest
  {
    var head := FrameBytes(frames[0]);
    var more := FramesBytes(frames[1..]) + rest;
    assert FramesBytes(frames) == head + FramesBytes(frames[1..]);
    assert bs == head + more;
    assert bs[|head|..] == more;
  }

  /** Round trip: `bytearray` accepts the serialised frames, and decoding
      those bytes gives the frames back. */
  lemma RoundTrip(frames: seq<Frame>)
    requires Encodable(frames)
    ensures ToBytes(Serialize(frames)).Some?
    ensures Decode(ToBytes(Serialize(frames)).value) == Some(frames)
  {
    SerializeFitsBytes(frames);
    var bs := ToBytes(Serialize(frames)).value;
    assert bs[1..] == FramesBytes(frames) + [];
    DecodeFramesOf(frames, [], bs[1..]);
  }

  /** The decoder accepts exactly the serialisations of encodable frames. */
  lemma DecodeIffSerialize(bs: seq<byte>, frames: seq<Frame>)
    ensures Decode(bs) == Some(frames) <==> Encodable(frames) && Serialize(frames) == bs
  {
    if Encodable(frames) && Serialize(frames) == bs {
      RoundTrip(frames);
    }
  }

  // ----- Truncation -----

  lemma {:induction false} DecodeRowExtends(w: nat, bs: seq<byte>, extra: seq<byte>)
    requires DecodeRow(w, bs).Some?
    ensures DecodeRow(w, bs + extra) == Some((DecodeRow(w, bs).value.0, DecodeRow(w, bs).value.1 + extra))
    decreases w
  {
    if w > 0 {
      var whole := bs + extra;
      assert whole[3..] == bs[3..] + extra;
      assert whole[0] == bs[0] && whole[1] == bs[1] && whole[2] == bs[2];
      DecodeRowExtends(w - 1, bs[3..], extra);
    }
  }

  lemma {:induction false} DecodeRowsExtends(h: nat, w: nat, bs: seq<byte>, extra: seq<byte>)
    requires DecodeRows(h, w, bs).Some?
    ensures DecodeRows(h, w, bs + extra) == Some((DecodeRows(h, w, bs).value.0, DecodeRows(h, w, bs).value.1 + extra))
    decreases h
  {
    if h > 0 {
      DecodeRowExtends(w, bs, extra);
      DecodeRowsExtends(h - 1, w, DecodeRow(w, bs).value.1, extra);
    }
  }

  lemma DecodeFrameExtends(bs: seq<byte>, extra: seq<byte>)
    requires DecodeFrame(bs).Some?
    ensures DecodeFrame(bs + extra) == Some((DecodeFrame(bs).value.0, DecodeFrame(bs).value.1 + extra))
  {
    assert (bs + extra)[2..] == bs[2..] + extra;
    DecodeRowsExtends(bs[1], bs[0], bs[2..], extra);
  }

  lemma {:induction false} DecodeFramesExtends(n: nat, bs: seq<byte>, extra: seq<byte>)
    requires DecodeFrames(n, bs).Some?
    ensures DecodeFrames(n, bs + extra) == Some((DecodeFrames(n, bs).value.0, DecodeFrames(n, bs).value.1 + extra))
    decreases n
  {
    if n > 0 {
      DecodeFrameExtends(bs, extra);
      DecodeFramesExtends(n - 1, DecodeFrame(bs).value.1, extra);
    }
  }

  /** A sprite file cut short anywhere does not decode: the stream runs out
      before the declared frames and pixels are complete. */
  lemma DecodeRejectsTruncation(frames: seq<Frame>, bs: seq<byte>, k: nat)
    requires Encodable(frames) && bs == Serialize(frames)
    requires k < |bs|
    ensures Decode(bs[..k]).None?
  {
    if k > 0 {
      TruncatedFramesFail(frames, bs, k);
      assert bs[..k][1..] == bs[1..k];
    }
  }

  /** The frames of a serialisation cut short do not decode: had they
      decoded, the full stream would decode to the same frames with the cut
      off bytes left over, yet it decodes with nothing left over. */
  lemma TruncatedFramesFail(frames: seq<Frame>, bs: seq<byte>, k: nat)
    requires Encodable(frames) && bs == Serialize(frames)
    requires 0 < k < |bs|
    ensures DecodeFrames(bs[0], bs[1..k]).None?
  {
    SerializedFrames(frames, bs);
    assert bs[1..k] + bs[k..] == bs[1..];
    PrefixOfExactDecode(bs[0], bs[1..k], bs[k..]);
  }

  /** The frame stream is prefix-free: when some bytes decode to `n` frames
      with nothing left over, no proper prefix of them decodes to `n` frames. */
  lemma PrefixOfExactDecode(n: nat, cut: seq<byte>, extra: seq<byte>)
    requires DecodeFrames(n, cut + extra).Some? && DecodeFrames(n, cut + extra).value.1 == []
    requires extra != []
    ensures DecodeFrames(n, cut).None?
  {
    if DecodeFrames(n, cut).Some? {
      DecodeFramesExtends(n, cut, extra);
    }
  }

  /** After the count byte, a serialisation decodes to its frames with
      nothing left over. */
  lemma SerializedFrames(frames: seq<Frame>, bs: seq<byte>)
    requires Encodable(frames) && bs == Serialize(frames)
    ensures DecodeFrames(bs[0], bs[1..]) == Some((frames, []))
  {
    assert bs[1..] == FramesBytes(frames) + [];
    DecodeFramesOf(frames, [], bs[1..]);
  }
}
