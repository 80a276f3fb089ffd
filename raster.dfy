/** One frame of the raster sweep of draw_to_fb.cpp: every pixel of the
    surface is classified against every game object, and the pixel is
    written with the sweep's single colour whenever an object returns 0. */
module Raster {
  import opened Surface
  import Shapes

  /** A game object: only its classifier. z is always passed as 0. */
  datatype GeometricGameObject = GeometricGameObject(fn: (int, int, int) -> int)

  /** Some object classifies (x, y, 0) as inside. */
  predicate Hit(objects: seq<GeometricGameObject>, x: int, y: int) {
    exists j :: 0 <= j < |objects| && objects[j].fn(x, y, 0) == 0
  }

  /** Reference definition of the memory after one frame, byte by byte:
      byte i belongs to pixel (k % width, k / width) with k = i / 4, and it
      takes the colour's byte i % 4 when that pixel is hit and keeps its old
      value otherwise. */
  function Frame(mem: seq<Byte>, width: nat, height: nat,
                 objects: seq<GeometricGameObject>, color: Color): (r: seq<Byte>)
    requires |mem| == width * height * 4
    requires ValidColor(color)
    ensures |r| == |mem|
  {
    if width == 0 then mem
    else
      seq(|mem|, i requires 0 <= i < |mem| =>
        if Hit(objects, (i / 4) % width, (i / 4) / width)
        then PixelBytes(color)[i % 4]
        else mem[i])
  }

  /** A positive multiple of d is at least d. */
  lemma MulAtLeast(e: int, d: int)
    requires 0 < d
    ensures 1 <= e ==> d <= e * d
  {
  }

  /** The quotient of a decomposition k == q * d + r with 0 <= r < d is
      unique. */
  lemma QuotientUnique(d: int, q1: int, r1: int, q2: int, r2: int)
    requires 0 < d && 0 <= r1 < d && 0 <= r2 < d
    requires q1 * d + r1 == q2 * d + r2
    ensures q1 == q2
  {
    MulAtLeast(q2 - q1, d);
    MulAtLeast(q1 - q2, d);
    assert (q2 - q1) * d == r1 - r2;
    assert (q1 - q2) * d == r2 - r1;
  }

  /** Integer division and remainder are determined by any decomposition
      k == q * d + r with 0 <= r < d. */
  lemma DivModUnique(k: int, d: int, q: int, r: int)
    requires 0 < d && 0 <= r < d && k == q * d + r
    ensures k / d == q && k % d == r
  {
    QuotientUnique(d, k / d, k % d, q, r);
  }

  /** Byte c of in-range pixel (x, y) is mapped back to (x, y) and c by the
      index arithmetic of Frame. */
  lemma ByteOfPixel(width: int, height: int, x: int, y: int, c: int)
    requires 0 <= x < width && 0 <= y < height && 0 <= c < 4
    ensures var i := Offset(width, x, y) + c;
      i / 4 == y * width + x && i % 4 == c &&
      (i / 4) % width == x && (i / 4) / width == y
  {
    DivModUnique(Offset(width, x, y) + c, 4, y * width + x, c);
    DivModUnique(y * width + x, width, y, x);
  }

  /** Every byte index of a width x height surface is byte i % 4 of an
      in-range pixel. */
  lemma PixelOfByte(width: int, height: int, i: int)
    requires 0 < width && 0 <= height && 0 <= i < width * height * 4
    ensures var x, y := (i / 4) % width, (i / 4) / width;
      0 <= x < width && 0 <= y < height && i == Offset(width, x, y) + i % 4
  {
  }

  /** The pixel-level reading of Frame: an in-range pixel holds the colour
      if some object hits it, and its old bytes otherwise. */
  lemma FramePixel(mem: seq<Byte>, width: nat, height: nat,
                   objects: seq<GeometricGameObject>, color: Color, x: int, y: int)
    requires |mem| == width * height * 4
    requires ValidColor(color)
    requires 0 <= x < width && 0 <= y < height
    ensures PixelAt(Frame(mem, width, height, objects, color), width, height, x, y)
         == if Hit(objects, x, y) then PixelBytes(color) else PixelAt(mem, width, height, x, y)
  {
    var got := PixelAt(Frame(mem, width, height, objects, color), width, height, x, y);
    var want := if Hit(objects, x, y) then PixelBytes(color) else PixelAt(mem, width, height, x, y);
    forall c | 0 <= c < 4
      ensures got[c] == want[c]
    {
      ByteOfPixel(width, height, x, y, c);
    }
  }

  /** Two memory images of a width x height surface that agree on every
      in-range pixel are equal. */
  lemma PixelwiseEqual(a: seq<Byte>, b: seq<Byte>, width: nat, height: nat)
    requires |a| == width * height * 4 && |b| == |a|
    requires forall x, y :: 0 <= x < width && 0 <= y < height ==>
      PixelAt(a, width, height, x, y) == PixelAt(b, width, height, x, y)
    ensures a == b
  {
    if width > 0 {
      forall i | 0 <= i < |a|
        ensures a[i] == b[i]
      {
        PixelOfByte(width, height, i);
        var x, y := (i / 4) % width, (i / 4) / width;
        assert PixelAt(a, width, height, x, y)[i % 4] == PixelAt(b, width, height, x, y)[i % 4];
      }
    }
  }

  /** The bytes one pixel holds after the sweep has visited it. */
  function Rendered(mem: seq<Byte>, width: nat, height: nat,
                    objects: seq<GeometricGameObject>, color: Color, x: int, y: int): (r: seq<Byte>)
    requires |mem| == width * height * 4
    requires ValidColor(color)
    requires 0 <= x < width && 0 <= y < height
    ensures |r| == 4
  {
    if Hit(objects, x, y) then PixelBytes(color) else PixelAt(mem, width, height, x, y)
  }

  /** The innermost loop at one pixel: each object in list order is asked
      to classify (x, y, 0), and every 0 answer writes the pixel. `hit`
      tells whether any write happened. */
  method RenderPixel(fb: Framebuffer, gameObjects: seq<GeometricGameObject>, color: Color,
                     x: int, y: int)
    returns (ghost hit: bool)
    requires fb.Valid() && fb.bytes == 4
    requires ValidColor(color)
    requires 0 <= x < fb.width && 0 <= y < fb.height
    modifies fb.fbMemory
    ensures hit == Hit(gameObjects, x, y)
    ensures PixelAt(fb.fbMemory[..], fb.width, fb.height, x, y)
         == Rendered(old(fb.fbMemory[..]), fb.width, fb.height, gameObjects, color, x, y)
    ensures forall px, py :: 0 <= px < fb.width && 0 <= py < fb.height && (px, py) != (x, y) ==>
      PixelAt(fb.fbMemory[..], fb.width, fb.height, px, py)
      == PixelAt(old(fb.fbMemory[..]), fb.width, fb.height, px, py)
  {
    ghost var mem0 := fb.fbMemory[..];
    var w, h := fb.width, fb.height;
    hit := false;
    for i := 0 to |gameObjects|
      invariant hit <==> exists j :: 0 <= j < i && gameObjects[j].fn(x, y, 0) == 0
      invariant PixelAt(fb.fbMemory[..], w, h, x, y)
             == if hit then PixelBytes(color) else PixelAt(mem0, w, h, x, y)
      invariant forall px, py :: 0 <= px < w && 0 <= py < h && (px, py) != (x, y) ==>
        PixelAt(fb.fbMemory[..], w, h, px, py) == PixelAt(mem0, w, h, px, py)
    {
      var res := gameObjects[i].fn(x, y, 0);
      if res == 0 {
        var p := Pixel(x, y, color);
        ghost var before := fb.fbMemory[..];
        fb.Write(p);
        StoreReadBack(before, w, h, p);
        assert PixelAt(fb.fbMemory[..], w, h, x, y) == PixelBytes(color);
        forall px, py | 0 <= px < w && 0 <= py < h && (px, py) != (x, y)
          ensures PixelAt(fb.fbMemory[..], w, h, px, py) == PixelAt(mem0, w, h, px, py)
        {
          StoreKeepsOthers(before, w, h, p, px, py);
        }
        hit := true;
        assert gameObjects[i].fn(x, y, 0) == 0;
      }
    }
  }

  /** The middle loop: every row y of column x, top to bottom. `written`
      holds the pixels of the column that were written. */
  method RenderColumn(fb: Framebuffer, gameObjects: seq<GeometricGameObject>, color: Color, x: int)
    returns (ghost written: set<(int, int)>)
    requires fb.Valid() && fb.bytes == 4
    requires ValidColor(color)
    requires 0 <= x < fb.width
    modifies fb.fbMemory
    ensures forall py :: 0 <= py < fb.height ==>
      PixelAt(fb.fbMemory[..], fb.width, fb.height, x, py)
      == Rendered(old(fb.fbMemory[..]), fb.width, fb.height, gameObjects, color, x, py)
    ensures forall px, py :: 0 <= px < fb.width && 0 <= py < fb.height && px != x ==>
      PixelAt(fb.fbMemory[..], fb.width, fb.height, px, py)
      == PixelAt(old(fb.fbMemory[..]), fb.width, fb.height, px, py)
    ensures forall px, py :: (px, py) in written <==>
      px == x && 0 <= py < fb.height && Hit(gameObjects, x, py)
  {
    ghost var mem0 := fb.fbMemory[..];
    var w, h := fb.width, fb.height;
    written := {};
    for y := 0 to h
      invariant forall py :: 0 <= py < y ==>
        PixelAt(fb.fbMemory[..], w, h, x, py) == Rendered(mem0, w, h, gameObjects, color, x, py)
      invariant forall px, py :: 0 <= px < w && 0 <= py < h && (px != x || y <= py) ==>
        PixelAt(fb.fbMemory[..], w, h, px, py) == PixelAt(mem0, w, h, px, py)
      invariant forall px, py :: (px, py) in written <==>
        px == x && 0 <= py < y && Hit(gameObjects, x, py)
    {
      ghost var before := fb.fbMemory[..];
      ghost var hit := RenderPixel(fb, gameObjects, color, x, y);
      assert Rendered(before, w, h, gameObjects, color, x, y)
          == Rendered(mem0, w, h, gameObjects, color, x, y);
      forall py | 0 <= py <= y
        ensures PixelAt(fb.fbMemory[..], w, h, x, py) == Rendered(mem0, w, h, gameObjects, color, x, py)
      {
        if py < y {
          assert PixelAt(fb.fbMemory[..], w, h, x, py) == PixelAt(before, w, h, x, py);
        }
      }
      if hit {
        written := written + {(x, y)};
      }
    }
  }

  /** One frame of the sweep: every column x, left to right. The memory
      ends up as Frame describes, and `written` holds exactly the in-range
      pixels some object hits. */
  method RenderFrame(fb: Framebuffer, gameObjects: seq<GeometricGameObject>, color: Color)
    returns (ghost written: set<(int, int)>)
    requires fb.Valid() && fb.bytes == 4
    requires ValidColor(color)
    modifies fb.fbMemory
    ensures fb.fbMemory[..] == Frame(old(fb.fbMemory[..]), fb.width, fb.height, gameObjects, color)
    ensures forall x, y :: (x, y) in written <==>
      0 <= x < fb.width && 0 <= y < fb.height && Hit(gameObjects, x, y)
  {
    ghost var mem0 := fb.fbMemory[..];
    var w, h := fb.width, fb.height;
    written := {};
    for x := 0 to w
      invariant forall px, py :: 0 <= px < x && 0 <= py < h ==>
        PixelAt(fb.fbMemory[..], w, h, px, py) == Rendered(mem0, w, h, gameObjects, color, px, py)
      invariant forall px, py :: x <= px < w && 0 <= py < h ==>
        PixelAt(fb.fbMemory[..], w, h, px, py) == PixelAt(mem0, w, h, px, py)
      invariant forall px, py :: (px, py) in written <==>
        0 <= px < x && 0 <= py < h && Hit(gameObjects, px, py)
    {
      ghost var column := RenderColumn(fb, gameObjects, color, x);
      written := written + column;
    }
    ghost var target := Frame(mem0, w, h, gameObjects, color);
    forall px, py | 0 <= px < w && 0 <= py < h
      ensures PixelAt(fb.fbMemory[..], w, h, px, py) == PixelAt(target, w, h, px, py)
    {
      FramePixel(mem0, w, h, gameObjects, color, px, py);
    }
    PixelwiseEqual(fb.fbMemory[..], target, w, h);
  }

  /** With no game objects a frame writes nothing: the memory is unchanged. */
  lemma FrameEmptyScene(mem: seq<Byte>, width: nat, height: nat, color: Color)
    requires |mem| == width * height * 4
    requires ValidColor(color)
    ensures Frame(mem, width, height, [], color) == mem
  {
  }

  /** Sweeping a second time with the same classifiers and colour changes
      nothing more. */
  lemma FrameIdempotent(mem: seq<Byte>, width: nat, height: nat,
                        objects: seq<GeometricGameObject>, color: Color)
    requires |mem| == width * height * 4
    requires ValidColor(color)
    ensures Frame(Frame(mem, width, height, objects, color), width, height, objects, color)
         == Frame(mem, width, height, objects, color)
  {
  }

  /** The RED constant is stored as blue 0, green 0, red 255, pad 0. */
  lemma RedBytes()
    ensures ValidColor(RED)
    ensures PixelBytes(RED) == [0, 0, 255, 0]
  {
  }

  /** The scene holding only the square object, drawn in RED: the square's
      pixels become [0, 0, 255, 0] and all others keep their bytes. */
  lemma SquareScene(mem: seq<Byte>, width: nat, height: nat, x: int, y: int)
    requires |mem| == width * height * 4
    requires 0 <= x < width && 0 <= y < height
    ensures PixelAt(Frame(mem, width, height, [GeometricGameObject(Shapes.SquareFn)], RED),
                    width, height, x, y)
         == if x < 500 && y < 500 then [0, 0, 255, 0] else PixelAt(mem, width, height, x, y)
  {
    var objects := [GeometricGameObject(Shapes.SquareFn)];
    FramePixel(mem, width, height, objects, RED, x, y);
    assert Hit(objects, x, y) <==> objects[0].fn(x, y, 0) == 0;
  }

  /** The scene of the program, the square followed by a second object
      whose classifier is left arbitrary, on a 2000 x 600 surface: pixel
      (10, 10) is RED whatever the second classifier answers, because every
      write uses the same colour. */
  lemma ProgramSceneCorner(mem: seq<Byte>, second: (int, int, int) -> int)
    requires |mem| == 2000 * 600 * 4
    ensures PixelAt(Frame(mem, 2000, 600,
                          [GeometricGameObject(Shapes.SquareFn), GeometricGameObject(second)], RED),
                    2000, 600, 10, 10)
         == [0, 0, 255, 0]
  {
    var objects := [GeometricGameObject(Shapes.SquareFn), GeometricGameObject(second)];
    FramePixel(mem, 2000, 600, objects, RED, 10, 10);
    assert objects[0].fn(10, 10, 0) == 0;
  }

  /** n consecutive frames of the sweep. After the first frame every further
      frame leaves the memory as it is. */
  method RenderFrames(fb: Framebuffer, gameObjects: seq<GeometricGameObject>, color: Color, n: nat)
    requires fb.Valid() && fb.bytes == 4
    requires ValidColor(color)
    modifies fb.fbMemory
    ensures fb.fbMemory[..]
         == if n == 0 then old(fb.fbMemory[..])
            else Frame(old(fb.fbMemory[..]), fb.width, fb.height, gameObjects, color)
  {
    ghost var mem0 := fb.fbMemory[..];
    var t := 0;
    while t < n
      invariant 0 <= t <= n
      invariant fb.fbMemory[..]
             == if t == 0 then mem0 else Frame(mem0, fb.width, fb.height, gameObjects, color)
    {
      ghost var written := RenderFrame(fb, gameObjects, color);
      if t > 0 {
        FrameIdempotent(mem0, fb.width, fb.height, gameObjects, color);
      }
      t := t + 1;
    }
  }
}
