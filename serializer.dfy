/**
 * The byte serialisers of the converter: `serialize_byte`, `serialize_float32`,
 * `serialize_uint32` and `serialize_image`.  Each appends to one shared
 * `bytearray`, which is modelled as the `data` field of a `ByteBuffer`.
 *
 * Next to each method stands the function giving the bytes it appends (or the
 * error that stops the converter), and lemmas state the layout of those bytes.
 */
module Serializer {
  import opened Common
  import opened Bytes

  /** Four bytes, as packed by `struct.pack('>f', ...)` or `struct.pack('>I', ...)`. */
  type Word = s: seq<byte> | |s| == 4 witness [0, 0, 0, 0]

  /**
   * A floating-point value, seen only through what the encoder needs of it:
   * the four big-endian IEEE 754 bytes `struct.pack('>f', num)` yields, and
   * whether `abs(num) > 2**31`, which `serialize_float32` rejects.
   */
  datatype Float = Float(packed: Word, exceedsBound: bool)

  /** One RGBA pixel as Pillow's `getdata()` yields it. */
  datatype Pixel = Pixel(r: int, g: int, b: int, a: int)

  /** A decoded texture: `image.size` and the pixels in `getdata()` order. */
  datatype Image = Image(width: int, height: int, pixels: seq<Pixel>)

  /** What Pillow guarantees of a decoded image: one pixel per position. */
  predicate WellFormed(img: Image)
  {
    0 <= img.width && 0 <= img.height && |img.pixels| == img.width * img.height
  }

  predicate IsByte(num: int)
  {
    0 <= num <= 255
  }

  predicate ByteValued(p: Pixel)
  {
    IsByte(p.r) && IsByte(p.g) && IsByte(p.b) && IsByte(p.a)
  }

  /** The bytes `serialize_byte` appends, or the error it stops with. */
  function ByteEncoding(num: int): Result<seq<byte>>
  {
    if num > 255 || num < 0 then Failure(ByteOutOfRange(num)) else Success([num])
  }

  /** The bytes `serialize_uint32` appends, or the error it stops with. */
  function Uint32Encoding(num: int): Result<seq<byte>>
  {
    if Uint32InRange(num) then Success(Uint32Bytes(num)) else Failure(Uint32OutOfRange(num))
  }

  /** The bytes `serialize_float32` appends, or the error it stops with. */
  function Float32Encoding(f: Float): Result<seq<byte>>
  {
    if f.exceedsBound then Failure(Float32OutOfRange) else Success(f.packed)
  }

  /** The encodings of the elements of `s`, one after the other; the first failure stops it. */
  function ConcatAll<T>(s: seq<T>, enc: T -> Result<seq<byte>>): Result<seq<byte>>
  {
    if s == [] then Success([])
    else
      var init :- ConcatAll(s[..|s| - 1], enc);
      var last :- enc(s[|s| - 1]);
      Success(init + last)
  }

  /** The bytes one pass of the pixel loop appends: R, G, B, A. */
  function PixelEncoding(p: Pixel): Result<seq<byte>>
  {
    var r :- ByteEncoding(p.r);
    var g :- ByteEncoding(p.g);
    var b :- ByteEncoding(p.b);
    var a :- ByteEncoding(p.a);
    Success(r + g + b + a)
  }

  /** The block `serialize_image` writes for a loaded image: width, height, then every pixel. */
  function ImageBlock(img: Image): Result<seq<byte>>
  {
    var w :- Uint32Encoding(img.width);
    var h :- Uint32Encoding(img.height);
    var px :- ConcatAll(img.pixels, PixelEncoding);
    Success(w + h + px)
  }

  /**
   * What `serialize_image(path, bytes)` appends.  `images` stands for the image
   * files Pillow can open: a path outside it is "Cannot open texture map".
   */
  function TextureEncoding(path: Option<string>, images: map<string, Image>): Result<seq<byte>>
  {
    match path
    case None => Success(Uint32Bytes(0) + Uint32Bytes(0))
    case Some(p) => if p in images then ImageBlock(images[p]) else Failure(CannotOpenTexture(p))
  }

  /** The size of a texture block once written: a zero-size header, or header and four bytes per pixel. */
  function TextureSize(path: Option<string>, images: map<string, Image>): nat
  {
    match path
    case None => 8
    case Some(p) => if p in images then 8 + 4 * |images[p].pixels| else 0
  }

  lemma {:induction false} ConcatAllSucceeds<T>(s: seq<T>, enc: T -> Result<seq<byte>>)
    ensures ConcatAll(s, enc).Success? <==> forall k | 0 <= k < |s| :: enc(s[k]).Success?
  {
    if s != [] {
      var init := s[..|s| - 1];
      ConcatAllSucceeds(init, enc);
      assert forall k | 0 <= k < |init| :: init[k] == s[k];
    }
  }

  /** One more element appends its encoding. */
  lemma ConcatAllSnoc<T>(s: seq<T>, enc: T -> Result<seq<byte>>)
    requires s != []
    requires ConcatAll(s[..|s| - 1], enc).Success? && enc(s[|s| - 1]).Success?
    ensures ConcatAll(s, enc) == Success(ConcatAll(s[..|s| - 1], enc).value + enc(s[|s| - 1]).value)
  {
  }

  /** `k` strides of `w` bytes: `w * k`, written so that the solver meets no product of two unknowns. */
  function Stride(w: nat, k: nat): nat
  {
    if k == 0 then 0 else Stride(w, k - 1) + w
  }

  lemma {:induction false} StrideMonotone(w: nat, a: nat, b: nat)
    requires a <= b
    ensures Stride(w, a) <= Stride(w, b)
    decreases b - a
  {
    if a < b {
      StrideMonotone(w, a, b - 1);
    }
  }

  lemma {:induction false} StrideIsProduct(w: nat, k: nat)
    ensures Stride(w, k) == w * k
  {
    if k > 0 {
      StrideIsProduct(w, k - 1);
      assert w * k == w * (k - 1) + w;
    }
  }

  /** If every element encodes to `w` bytes, the whole takes `w` bytes per element. */
  lemma {:induction false} ConcatAllFixedLength<T>(s: seq<T>, enc: T -> Result<seq<byte>>, w: nat)
    requires forall k | 0 <= k < |s| :: enc(s[k]).Success? && |enc(s[k]).value| == w
    ensures ConcatAll(s, enc).Success? && |ConcatAll(s, enc).value| == Stride(w, |s|)
  {
    if s != [] {
      var init := s[..|s| - 1];
      assert forall k | 0 <= k < |init| :: init[k] == s[k];
      ConcatAllFixedLength(init, enc, w);
      ConcatAllSnoc(s, enc);
    }
  }

  /** If every element encodes to `w` bytes, element `k` occupies the `k`-th stride of `w` bytes. */
  lemma {:induction false} ConcatAllFixedAt<T>(s: seq<T>, enc: T -> Result<seq<byte>>, w: nat, k: nat)
    requires forall j | 0 <= j < |s| :: enc(s[j]).Success? && |enc(s[j]).value| == w
    requires k < |s|
    ensures ConcatAll(s, enc).Success? && |ConcatAll(s, enc).value| == Stride(w, |s|)
    ensures Stride(w, k) + w <= Stride(w, |s|)
    ensures ConcatAll(s, enc).value[Stride(w, k) .. Stride(w, k) + w] == enc(s[k]).value
  {
    ConcatAllFixedLength(s, enc, w);
    var n := |s| - 1;
    var init := s[..n];
    assert forall j | 0 <= j < |init| :: init[j] == s[j];
    ConcatAllFixedLength(init, enc, w);
    ConcatAllSnoc(s, enc);
    var front, last := ConcatAll(init, enc).value, enc(s[n]).value;
    if k < n {
      ConcatAllFixedAt(init, enc, w, k);
      StrideMonotone(w, k + 1, n);
      SliceOfFront(front, last, Stride(w, k), Stride(w, k) + w);
    } else {
      SliceOfBack(front, last);
    }
  }

  /** If every element encodes to `w` bytes, the whole is those encodings in strides of `w` bytes. */
  lemma ConcatAllFixed<T>(s: seq<T>, enc: T -> Result<seq<byte>>, w: nat)
    requires forall k | 0 <= k < |s| :: enc(s[k]).Success? && |enc(s[k]).value| == w
    ensures ConcatAll(s, enc).Success?
    ensures |ConcatAll(s, enc).value| == Stride(w, |s|)
    ensures forall k | 0 <= k < |s| ::
      && Stride(w, k) + w <= Stride(w, |s|)
      && ConcatAll(s, enc).value[Stride(w, k) .. Stride(w, k) + w] == enc(s[k]).value
  {
    ConcatAllFixedLength(s, enc, w);
    forall k | 0 <= k < |s|
      ensures Stride(w, k) + w <= Stride(w, |s|)
      ensures ConcatAll(s, enc).value[Stride(w, k) .. Stride(w, k) + w] == enc(s[k]).value
    {
      ConcatAllFixedAt(s, enc, w, k);
    }
  }

  lemma SliceOfFront(front: seq<byte>, back: seq<byte>, lo: nat, hi: nat)
    requires lo <= hi <= |front|
    ensures (front + back)[lo..hi] == front[lo..hi]
  {
  }

  lemma SliceOfBack(front: seq<byte>, back: seq<byte>)
    ensures (front + back)[|front|..|front| + |back|] == back
  {
  }

  /** The first element that fails to encode decides the error of the whole. */
  lemma {:induction false} ConcatAllFailure<T>(s: seq<T>, enc: T -> Result<seq<byte>>, i: nat)
    requires i <= |s|
    requires ConcatAll(s[..i], enc).Failure?
    ensures ConcatAll(s, enc) == Failure(ConcatAll(s[..i], enc).error)
    decreases |s| - i
  {
    if i < |s| {
      assert s[..i + 1][..i] == s[..i];
      ConcatAllFailure(s, enc, i + 1);
    } else {
      assert s[..i] == s;
    }
  }

  /** With no texture, `serialize_image` writes eight zero bytes: width 0, height 0. */
  lemma NoTextureIsZeroBlock(images: map<string, Image>)
    ensures TextureEncoding(None, images) == Success([0, 0, 0, 0, 0, 0, 0, 0])
  {
    assert BigEndian(0, 1) == [0];
    assert BigEndian(0, 2) == [0, 0];
    assert BigEndian(0, 3) == [0, 0, 0];
    assert Uint32Bytes(0) == [0, 0, 0, 0];
    var zeros: seq<byte> := [0, 0, 0, 0, 0, 0, 0, 0];
    assert Uint32Bytes(0) + Uint32Bytes(0) == zeros;
  }

  /** A texture block can be written exactly when both sizes fit in 32 bits and every pixel value in a byte. */
  lemma ImageBlockSucceeds(img: Image)
    ensures ImageBlock(img).Success? <==>
      Uint32InRange(img.width) && Uint32InRange(img.height) &&
      forall k | 0 <= k < |img.pixels| :: ByteValued(img.pixels[k])
  {
    ConcatAllSucceeds(img.pixels, PixelEncoding);
  }

  /** A written texture block is the 8-byte header and four bytes per pixel. */
  lemma ImageBlockLength(img: Image)
    requires ImageBlock(img).Success?
    ensures |ImageBlock(img).value| == 8 + 4 * |img.pixels|
  {
    ImageBlockSucceeds(img);
    ConcatAllFixedLength(img.pixels, PixelEncoding, 4);
    StrideIsProduct(4, |img.pixels|);
  }

  /**
   * The layout of a written texture block: width and height read back as
   * 32-bit fields, then pixel `k` at offset 8 + 4k as its R, G, B, A bytes.
   */
  lemma ImageBlockLayout(img: Image)
    requires ImageBlock(img).Success?
    ensures |ImageBlock(img).value| == 8 + 4 * |img.pixels|
    ensures DecodeUint32(ImageBlock(img).value[..4]) == img.width
    ensures DecodeUint32(ImageBlock(img).value[4..8]) == img.height
    ensures forall k | 0 <= k < |img.pixels| ::
      var p := img.pixels[k];
      ImageBlock(img).value[8 + 4 * k .. 12 + 4 * k] == [p.r, p.g, p.b, p.a]
  {
    var out := ImageBlock(img).value;
    var px := ConcatAll(img.pixels, PixelEncoding);
    ImageBlockSucceeds(img);
    ConcatAllFixed(img.pixels, PixelEncoding, 4);
    StrideIsProduct(4, |img.pixels|);
    assert out == Uint32Bytes(img.width) + Uint32Bytes(img.height) + px.value;
    assert out[..4] == Uint32Bytes(img.width);
    assert out[4..8] == Uint32Bytes(img.height);
    Uint32RoundTrip(img.width);
    Uint32RoundTrip(img.height);
    forall k | 0 <= k < |img.pixels|
      ensures out[8 + 4 * k .. 12 + 4 * k] == PixelEncoding(img.pixels[k]).value
    {
      StrideIsProduct(4, k);
      assert out[8 + 4 * k .. 12 + 4 * k] == px.value[4 * k .. 4 * k + 4];
    }
  }

  /** For a decoded image the block is 8 + 4 * width * height bytes long. */
  lemma ImageBlockSize(img: Image)
    requires WellFormed(img) && ImageBlock(img).Success?
    ensures |ImageBlock(img).value| == 8 + 4 * img.width * img.height
  {
    ImageBlockLength(img);
    assert 4 * (img.width * img.height) == 4 * img.width * img.height;
  }

  /** TextureSize is the length of the block `serialize_image` writes. */
  lemma TextureSizeIsLength(path: Option<string>, images: map<string, Image>)
    requires TextureEncoding(path, images).Success?
    ensures |TextureEncoding(path, images).value| == TextureSize(path, images)
  {
    if path.Some? {
      ImageBlockLength(images[path.value]);
    }
  }

  /** The output buffer: the `bytearray` the serialisers append to. */
  class ByteBuffer {
    var data: seq<byte>

    constructor (init: seq<byte>)
      ensures data == init
    {
      data := init;
    }

    /** `serialize_byte`: append `num` if it is a byte value, otherwise stop. */
    method SerializeByte(num: int) returns (o: Outcome)
      modifies this
      ensures o.Pass? <==> IsByte(num)
      ensures o.Pass? ==> data == old(data) + [num]
      ensures o.Fail? ==> o.error == ByteOutOfRange(num) && data == old(data)
    {
      if num > 255 || num < 0 {
        return Fail(ByteOutOfRange(num));
      }
      data := data + [num];
      o := Pass;
    }

    /** `serialize_uint32`: append the four big-endian bytes of `num`, or stop if it does not fit. */
    method SerializeUint32(num: int) returns (o: Outcome)
      modifies this
      ensures o.Pass? <==> Uint32InRange(num)
      ensures o.Pass? ==> data == old(data) + Uint32Bytes(num)
      ensures o.Pass? ==> DecodeUint32(data[|old(data)|..]) == num
      ensures o.Fail? ==> o.error == Uint32OutOfRange(num) && data == old(data)
    {
      if num >= Uint32Limit || num < 0 {
        return Fail(Uint32OutOfRange(num));
      }
      data := data + Uint32Bytes(num);
      assert data[|old(data)|..] == Uint32Bytes(num);
      Uint32RoundTrip(num);
      o := Pass;
    }

    /** `serialize_float32`: append the packed bytes of `f`, or stop if it is out of bound. */
    method SerializeFloat32(f: Float) returns (o: Outcome)
      modifies this
      ensures o.Pass? <==> !f.exceedsBound
      ensures o.Pass? ==> data == old(data) + f.packed
      ensures o.Fail? ==> o.error == Float32OutOfRange && data == old(data)
    {
      if f.exceedsBound {
        return Fail(Float32OutOfRange);
      }
      data := data + f.packed;
      o := Pass;
    }

    /**
     * `serialize_image`: a zero-size block when there is no texture, otherwise
     * the image's width, height and pixels.  On failure the converter exits,
     * so all that is said of the buffer then is that nothing was taken away.
     */
    method SerializeImage(path: Option<string>, images: map<string, Image>) returns (o: Outcome)
      modifies this
      ensures o.Pass? <==> TextureEncoding(path, images).Success?
      ensures o.Pass? ==> data == old(data) + TextureEncoding(path, images).value
      ensures o.Fail? ==> o.error == TextureEncoding(path, images).error && old(data) <= data
    {
      if path.None? {
        o := SerializeUint32(0);
        o := SerializeUint32(0);
        return;
      }
      var p := path.value;
      if p !in images {
        return Fail(CannotOpenTexture(p));
      }
      var image := images[p];
      o := SerializeUint32(image.width);
      if o.Fail? {
        return;
      }
      o := SerializeUint32(image.height);
      if o.Fail? {
        return;
      }
      o := SerializePixels(image.pixels);
    }

    /** The pixel loop of `serialize_image`: R, G, B and A of every pixel, in order. */
    method SerializePixels(pixels: seq<Pixel>) returns (o: Outcome)
      modifies this
      ensures o.Pass? <==> ConcatAll(pixels, PixelEncoding).Success?
      ensures o.Pass? ==> data == old(data) + ConcatAll(pixels, PixelEncoding).value
      ensures o.Fail? ==> o.error == ConcatAll(pixels, PixelEncoding).error && old(data) <= data
    {
      for i := 0 to |pixels|
        invariant ConcatAll(pixels[..i], PixelEncoding).Success?
        invariant data == old(data) + ConcatAll(pixels[..i], PixelEncoding).value
      {
        var pixel := pixels[i];
        assert pixels[..i + 1][..i] == pixels[..i];
        o := SerializeByte(pixel.r);
        if o.Pass? {
          o := SerializeByte(pixel.g);
        }
        if o.Pass? {
          o := SerializeByte(pixel.b);
        }
        if o.Pass? {
          o := SerializeByte(pixel.a);
        }
        if o.Fail? {
          ConcatAllFailure(pixels, PixelEncoding, i + 1);
          return;
        }
      }
      assert pixels[..|pixels|] == pixels;
      o := Pass;
    }
  }
}
