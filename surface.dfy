/** The memory-mapped display surface of draw_to_fb.cpp: the pixel encoding,
    the byte offset of a pixel and the Framebuffer object with its write
    operation. */
module Surface {

  /** One byte of the mapped framebuffer memory. */
  type Byte = b: int | 0 <= b < 256

  /** A colour as the source stores it: three int channels. */
  datatype Color = Color(red: int, green: int, blue: int)

  /** Channel values that fit a byte unchanged. */
  predicate ValidColor(c: Color) {
    0 <= c.red < 256 && 0 <= c.green < 256 && 0 <= c.blue < 256
  }

  const RED: Color := Color(255, 0, 0)
  const GREEN: Color := Color(0, 255, 0)
  const BLUE: Color := Color(0, 0, 255)

  /** The coordinates and colour handed to Framebuffer.Write. */
  datatype Pixel = Pixel(x: int, y: int, color: Color)

  /** Linear byte offset of pixel (x, y) on a surface `width` pixels wide,
      with the stride of four bytes per pixel that the writer hard-codes. */
  function Offset(width: int, x: int, y: int): int {
    (y * width + x) * 4
  }

  /** The four bytes a pixel of colour c occupies in memory. */
  function PixelBytes(c: Color): (r: seq<Byte>)
    requires ValidColor(c)
    ensures |r| == 4
  {
    [c.blue, c.green, c.red, 0]
  }

  /** An in-range pixel of a width x height surface lies inside its
      width * height * 4 bytes. */
  lemma OffsetInBounds(width: int, height: int, x: int, y: int)
    requires 0 <= x < width && 0 <= y < height
    ensures 0 <= Offset(width, x, y)
    ensures Offset(width, x, y) + 4 <= width * height * 4
  {
    assert 0 <= y * width;
    assert y * width + x < (y + 1) * width;
    assert (y + 1) * width <= height * width;
  }

  /** The pixel index y * width + x is one-to-one on in-range pixels. */
  lemma IndexInjective(width: int, x1: int, y1: int, x2: int, y2: int)
    requires 0 <= x1 < width && 0 <= y1
    requires 0 <= x2 < width && 0 <= y2
    requires (x1, y1) != (x2, y2)
    ensures y1 * width + x1 != y2 * width + x2
  {
    if y1 < y2 {
      RowsApart(width, x1, y1, x2, y2);
    } else if y2 < y1 {
      RowsApart(width, x2, y2, x1, y1);
    }
  }

  /** A pixel on a later row has a larger pixel index. */
  lemma RowsApart(width: int, x1: int, y1: int, x2: int, y2: int)
    requires 0 <= x1 < width && 0 <= x2
    requires y1 < y2
    ensures y1 * width + x1 < y2 * width + x2
  {
    var d := y2 - y1 - 1;
    assert 0 <= d * width;
    assert y2 * width == y1 * width + width + d * width;
  }

  /** Distinct in-range pixels occupy disjoint four-byte ranges. */
  lemma OffsetsDisjoint(width: int, x1: int, y1: int, x2: int, y2: int)
    requires 0 <= x1 < width && 0 <= y1
    requires 0 <= x2 < width && 0 <= y2
    requires (x1, y1) != (x2, y2)
    ensures Offset(width, x1, y1) + 4 <= Offset(width, x2, y2)
         || Offset(width, x2, y2) + 4 <= Offset(width, x1, y1)
  {
    IndexInjective(width, x1, y1, x2, y2);
  }

  /** The four bytes of in-range pixel (x, y) in the memory image mem of a
      width x height surface. */
  function PixelAt(mem: seq<Byte>, width: int, height: int, x: int, y: int): (r: seq<Byte>)
    requires |mem| == width * height * 4
    requires 0 <= x < width && 0 <= y < height
    ensures 0 <= Offset(width, x, y) && Offset(width, x, y) + 4 <= |mem|
    ensures |r| == 4
    ensures forall c :: 0 <= c < 4 ==> r[c] == mem[Offset(width, x, y) + c]
  {
    OffsetInBounds(width, height, x, y);
    mem[Offset(width, x, y)..Offset(width, x, y) + 4]
  }

  /** The memory image after writing in-range pixel p into mem: the four
      bytes at p's offset take p's colour, every other byte is kept. */
  function Store(mem: seq<Byte>, width: int, height: int, p: Pixel): (r: seq<Byte>)
    requires |mem| == width * height * 4
    requires 0 <= p.x < width && 0 <= p.y < height
    requires ValidColor(p.color)
    ensures 0 <= Offset(width, p.x, p.y) && Offset(width, p.x, p.y) + 4 <= |mem|
    ensures |r| == |mem|
    ensures forall i :: 0 <= i < |mem| ==>
      r[i] == if Offset(width, p.x, p.y) <= i < Offset(width, p.x, p.y) + 4
              then PixelBytes(p.color)[i - Offset(width, p.x, p.y)]
              else mem[i]
  {
    OffsetInBounds(width, height, p.x, p.y);
    var off := Offset(width, p.x, p.y);
    mem[..off] + PixelBytes(p.color) + mem[off + 4..]
  }

  /** Reading back the pixel just stored yields blue, green, red and a zero
      pad byte. */
  lemma StoreReadBack(mem: seq<Byte>, width: int, height: int, p: Pixel)
    requires |mem| == width * height * 4
    requires 0 <= p.x < width && 0 <= p.y < height
    requires ValidColor(p.color)
    ensures PixelAt(Store(mem, width, height, p), width, height, p.x, p.y)
         == [p.color.blue, p.color.green, p.color.red, 0]
  {
  }

  /** Storing a pixel leaves every other in-range pixel as it was. */
  lemma StoreKeepsOthers(mem: seq<Byte>, width: int, height: int, p: Pixel, x: int, y: int)
    requires |mem| == width * height * 4
    requires 0 <= p.x < width && 0 <= p.y < height
    requires ValidColor(p.color)
    requires 0 <= x < width && 0 <= y < height
    requires (x, y) != (p.x, p.y)
    ensures PixelAt(Store(mem, width, height, p), width, height, x, y)
         == PixelAt(mem, width, height, x, y)
  {
    OffsetsDisjoint(width, x, y, p.x, p.y);
    var r := PixelAt(Store(mem, width, height, p), width, height, x, y);
    assert forall c :: 0 <= c < 4 ==> r[c] == PixelAt(mem, width, height, x, y)[c];
  }

  /** The Framebuffer class: geometry queried once at construction and a
      view of the device memory. The fields are never reassigned after the
      constructor, so they are constants here; only the bytes behind
      fbMemory change. */
  class Framebuffer {
    const width: int
    const height: int
    const bpp: int
    const bytes: int
    const fbMemorySize: int
    const fbMemory: array<Byte>

    /** The geometry relations the constructor establishes. */
    ghost predicate Valid() {
      0 <= width && 0 <= height && 0 <= bpp &&
      bytes == bpp / 8 &&
      fbMemorySize == width * height * bytes &&
      fbMemory.Length == fbMemorySize
    }

    /** Builds the object from the queried geometry and the mapped memory;
        opening the device, the geometry query and the mapping itself are
        the caller's. */
    constructor (xres: nat, yres: nat, bitsPerPixel: nat, mapped: array<Byte>)
      requires mapped.Length == xres * yres * (bitsPerPixel / 8)
      ensures Valid()
      ensures width == xres && height == yres && bpp == bitsPerPixel
      ensures bytes == bitsPerPixel / 8
      ensures fbMemory == mapped
    {
      width := xres;
      height := yres;
      bpp := bitsPerPixel;
      bytes := bitsPerPixel / 8;
      fbMemorySize := xres * yres * (bitsPerPixel / 8);
      fbMemory := mapped;
    }

    /** Writes the colour of p into the four bytes of pixel (p.x, p.y), in
        blue, green, red, pad order. The offset uses a stride of 4, so the
        surface must have 4 bytes per pixel. */
    method Write(p: Pixel)
      requires Valid() && bytes == 4
      requires 0 <= p.x < width && 0 <= p.y < height
      requires ValidColor(p.color)
      modifies fbMemory
      ensures fbMemory[..] == Store(old(fbMemory[..]), width, height, p)
    {
      OffsetInBounds(width, height, p.x, p.y);
      var offset := (p.y * width + p.x) * 4;
      fbMemory[offset + 0] := p.color.blue;
      fbMemory[offset + 1] := p.color.green;
      fbMemory[offset + 2] := p.color.red;
      fbMemory[offset + 3] := 0;
      assert fbMemory[..] == Store(old(fbMemory[..]), width, height, p);
    }
  }
}
