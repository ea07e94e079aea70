/**
 The 3-byte and 6-byte packed position formats, with the shifts and masks of the source on
 16-bit and 8-bit words.
 */
module Packing {
  datatype PosDir = PosDir(x: bv16, y: bv16, dir: bv8)
  datatype MoveData = MoveData(fromX: bv16, fromY: bv16, toX: bv16, toY: bv16, sx0: bv8, sy0: bv8)

  datatype Packed3 = Packed3(p0: bv8, p1: bv8, p2: bv8)
  datatype Packed6 = Packed6(p0: bv8, p1: bv8, p2: bv8, p3: bv8, p4: bv8, p5: bv8)

  /** Go's `uint8(w)`. */
  function Low(w: bv16): bv8 {
    (w & 0xff) as bv8
  }

  function DecodePosDir(d: Packed3): PosDir {
    PosDir(((d.p0 & 0xff) as bv16 << 2) | ((d.p1 >> 6) as bv16),
           ((d.p1 & 0x3f) as bv16 << 4) | ((d.p2 >> 4) as bv16),
           d.p2 & 0x0f)
  }

  function EncodePosDir(x: bv16, y: bv16, dir: bv8): Packed3 {
    Packed3(Low(x >> 2), Low((x << 6) | ((y >> 4) & 0x3f)), Low((y << 4) | (dir as bv16 & 0x0f)))
  }

  function DecodeMoveData(d: Packed6): MoveData {
    MoveData(((d.p0 & 0xff) as bv16 << 2) | ((d.p1 >> 6) as bv16),
             ((d.p1 & 0x3f) as bv16 << 4) | ((d.p2 >> 4) as bv16),
             ((d.p2 & 0x0f) as bv16 << 6) | ((d.p3 >> 2) as bv16),
             ((d.p3 & 0x03) as bv16 << 8) | (d.p4 as bv16),
             (d.p5 & 0xf0) >> 4,
             d.p5 & 0x0f)
  }

  function EncodeMoveData(fromX: bv16, fromY: bv16, toX: bv16, toY: bv16, sx0: bv8, sy0: bv8): Packed6 {
    Packed6(Low(fromX >> 2), Low((fromX << 6) | ((fromY >> 4) & 0x3f)),
            Low((fromY << 4) | ((toX >> 6) & 0x0f)), Low((toX << 2) | ((toY >> 8) & 0x03)),
            Low(toY), ((sx0 & 0x0f) << 4) | (sy0 & 0x0f))
  }

  /**
   Which bits of which byte: x is the first byte and the top two bits of the second, y the
   other six and the top half of the third, the direction its lower half.
   */
  lemma PosDirBits(d: Packed3)
    ensures var r := DecodePosDir(d);
            && r.x / 4 == d.p0 as bv16 && r.x % 4 == (d.p1 / 64) as bv16
            && r.y / 16 == (d.p1 % 64) as bv16 && r.y % 16 == (d.p2 / 16) as bv16
            && r.dir == d.p2 % 16
  {
  }

  /** The same for a move: ten bits for each coordinate in turn, then two halves of a byte. */
  lemma MoveDataBits(d: Packed6)
    ensures var m := DecodeMoveData(d);
            && m.fromX / 4 == d.p0 as bv16 && m.fromX % 4 == (d.p1 / 64) as bv16
            && m.fromY / 16 == (d.p1 % 64) as bv16 && m.fromY % 16 == (d.p2 / 16) as bv16
            && m.toX / 64 == (d.p2 % 16) as bv16 && m.toX % 64 == (d.p3 / 4) as bv16
            && m.toY / 256 == (d.p3 % 4) as bv16 && m.toY % 256 == d.p4 as bv16
            && m.sx0 == d.p5 / 16 && m.sy0 == d.p5 % 16
  {
  }

  /** Every 3-byte input is the encoding of what it decodes to. */
  lemma EncodeDecodePosDir(d: Packed3)
    ensures EncodePosDir(DecodePosDir(d).x, DecodePosDir(d).y, DecodePosDir(d).dir) == d
  {
  }

  /** Decoding returns each coordinate modulo 1024 and the direction modulo 16, for any words. */
  lemma DecodeEncodePosDir(x: bv16, y: bv16, dir: bv8)
    ensures DecodePosDir(EncodePosDir(x, y, dir)) == PosDir(x & 0x3ff, y & 0x3ff, dir & 0x0f)
  {
  }

  lemma EncodeDecodeMoveData(d: Packed6)
    ensures var m := DecodeMoveData(d);
            EncodeMoveData(m.fromX, m.fromY, m.toX, m.toY, m.sx0, m.sy0) == d
  {
  }

  lemma DecodeEncodeMoveData(fromX: bv16, fromY: bv16, toX: bv16, toY: bv16, sx0: bv8, sy0: bv8)
    ensures DecodeMoveData(EncodeMoveData(fromX, fromY, toX, toY, sx0, sy0)) ==
            MoveData(fromX & 0x3ff, fromY & 0x3ff, toX & 0x3ff, toY & 0x3ff, sx0 & 0x0f, sy0 & 0x0f)
  {
  }
}
