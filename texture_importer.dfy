/**
 * TextureImporter.cpp and ResourceTexture.cpp: turning a decoded image into
 * the engine's ".vroom_tex" file, the layout of that file, and loading one
 * back into an OpenGL texture for a texture resource.
 *
 * A ".vroom_tex" file is: width, height and channel count (each a 32-bit
 * int, little-endian), then width * height * channels bytes of pixels.
 */
module TextureImporter {
  import opened Common
  import opened Strings
  import opened FileSystem
  import opened Gl
  import opened Resources

  /**
   * What the image decoder returns for a readable image: its size, its
   * channel count and one byte per channel per pixel. The decoder refuses
   * images whose byte count does not fit an int.
   */
  datatype DecodedImage = DecodedImage(width: i32, height: i32, channels: i32, pixels: seq<byte>)

  predicate WellDecoded(img: DecodedImage)
  {
    img.width > 0 && img.height > 0 && 1 <= img.channels <= 4
    && img.width * img.height * img.channels < 0x8000_0000
    && |img.pixels| == img.width * img.height * img.channels
  }

  /** `width * height * channels` evaluated in int arithmetic, wrapping at 32 bits. */
  function DataSize(width: i32, height: i32, channels: i32): i32
  {
    WrapI32(WrapI32(width * height) * channels)
  }

  /** When the product fits an int, DataSize is the product. */
  lemma DataSizeExact(width: i32, height: i32, channels: i32)
    requires width >= 0 && height >= 0 && channels >= 0
    requires width * height * channels < 0x8000_0000
    ensures DataSize(width, height, channels) == width * height * channels
  {
    var area := width * height;
    assert area >= 0 by {
      MulNonNegative(width, height);
    }
    if channels > 0 {
      assert area * channels == area * (channels - 1) + area;
      MulNonNegative(area, channels - 1);
      assert WrapI32(area) == area;
    } else {
      assert WrapI32(area) * channels == 0 == area * channels;
    }
  }

  lemma MulNonNegative(a: int, b: int)
    requires a >= 0 && b >= 0
    ensures a * b >= 0
  {
  }

  /** The content of one texture file. */
  datatype TextureFile = TextureFile(width: i32, height: i32, channels: i32, pixels: seq<byte>)

  /** The pixel block has the length the header announces. */
  predicate WellSizedTexture(t: TextureFile)
  {
    DataSize(t.width, t.height, t.channels) >= 0
    && |t.pixels| == DataSize(t.width, t.height, t.channels)
  }

  function EncodeTexture(t: TextureFile): (b: seq<byte>)
    requires WellSizedTexture(t)
    ensures |b| == 12 + |t.pixels|
  {
    WordBytes(I32ToWord(t.width)) + WordBytes(I32ToWord(t.height)) + WordBytes(I32ToWord(t.channels)) + t.pixels
  }

  /** The int stored at header slot `k` (0 width, 1 height, 2 channels). */
  function HeaderInt(b: seq<byte>, k: nat): i32
  {
    WordToI32(WordAt(b, 4 * k))
  }

  /**
   * Reading a texture file: the header, then as many bytes as it announces
   * (zeros past the end of the file); None when the announced size is
   * negative, where the pixel buffer cannot be allocated.
   */
  function DecodeTexture(b: seq<byte>): (r: Option<TextureFile>)
    ensures r.Some? ==> WellSizedTexture(r.value)
    ensures r.Some? <==> DataSize(HeaderInt(b, 0), HeaderInt(b, 1), HeaderInt(b, 2)) >= 0
  {
    var w, h, c := HeaderInt(b, 0), HeaderInt(b, 1), HeaderInt(b, 2);
    var size := DataSize(w, h, c);
    if size < 0 then None else Some(TextureFile(w, h, c, BytesAt(b, 12, size)))
  }

  /** Loading a written texture file gives back exactly what was written. */
  lemma TextureRoundTrip(t: TextureFile)
    requires WellSizedTexture(t)
    ensures DecodeTexture(EncodeTexture(t)) == Some(t)
  {
    var hw, hh, hc := WordBytes(I32ToWord(t.width)), WordBytes(I32ToWord(t.height)), WordBytes(I32ToWord(t.channels));
    var b := EncodeTexture(t);
    assert b == [] + hw + (hh + hc + t.pixels);
    WordRoundTrip(I32ToWord(t.width), [], hh + hc + t.pixels);
    assert b == hw + hh + (hc + t.pixels);
    WordRoundTrip(I32ToWord(t.height), hw, hc + t.pixels);
    assert b == (hw + hh) + hc + t.pixels;
    WordRoundTrip(I32ToWord(t.channels), hw + hh, t.pixels);
    I32WordRoundTrip(t.width);
    I32WordRoundTrip(t.height);
    I32WordRoundTrip(t.channels);
    assert b == (hw + hh + hc) + t.pixels + [];
    BytesRoundTrip(t.pixels, hw + hh + hc, []);
  }

  /** What Import writes for a decoded image. */
  function TextureFileOf(img: DecodedImage): (t: TextureFile)
    requires WellDecoded(img)
    ensures WellSizedTexture(t)
  {
    DataSizeExact(img.width, img.height, img.channels);
    TextureFile(img.width, img.height, img.channels, img.pixels)
  }

  /** Library file name of a texture: the source's stem with the ".vroom_tex" extension. */
  function TextureLibraryPath(destDir: string, filePath: string): string
  {
    destDir + "/" + StemOf(filePath) + ".vroom_tex"
  }

  /** The texture file lies directly in the destination directory. */
  lemma TextureLibraryPathParent(destDir: string, filePath: string)
    ensures var p := TextureLibraryPath(destDir, filePath);
      LastIndexOf(p, '/') == |destDir| && p[..|destDir|] == destDir
  {
    var p := TextureLibraryPath(destDir, filePath);
    var stem := StemOf(filePath);
    var tail := stem + ".vroom_tex";
    StemHasNoSlash(filePath);
    assert '/' !in tail by {
      assert forall j :: 0 <= j < |tail| ==> tail[j] in stem || tail[j] in ".vroom_tex";
    }
    assert p == destDir + ['/'] + tail;
    LastIndexOfBeforeTail(destDir, '/', tail);
  }

  // ---------------------------------------------------------------------
  // Import and SaveToLibrary
  // ---------------------------------------------------------------------

  /**
   * TextureImporter::SaveToLibrary: the three header ints and
   * width * height * channels bytes of `data`, written to `path` when it
   * can be opened.
   */
  method SaveToLibrary(path: string, width: i32, height: i32, channels: i32, data: seq<byte>, fs: FileSystem, now: int)
    requires 0 <= DataSize(width, height, channels) <= |data|
    modifies fs
    ensures fs.disk == WriteIfPossible(old(fs.disk), path,
      EncodeTexture(TextureFile(width, height, channels, data[..DataSize(width, height, channels)])), now)
  {
    var dataSize := DataSize(width, height, channels);
    var t := TextureFile(width, height, channels, data[..dataSize]);
    var _ := fs.WriteFile(path, EncodeTexture(t), now);
  }

  /**
   * TextureImporter::Import: false when the image could not be decoded;
   * otherwise its file is written (if the stream opens) and the result is
   * true either way.
   */
  method Import(filePath: string, destDir: string, decoded: Option<DecodedImage>, fs: FileSystem, now: int)
    returns (ok: bool)
    requires decoded.Some? ==> WellDecoded(decoded.value)
    modifies fs
    ensures ok <==> decoded.Some?
    ensures !ok ==> fs.disk == old(fs.disk)
    ensures ok ==> fs.disk == WriteIfPossible(old(fs.disk), TextureLibraryPath(destDir, filePath),
      EncodeTexture(TextureFileOf(decoded.value)), now)
  {
    if decoded.None? {
      return false;
    }
    var img := decoded.value;
    var libPath := TextureLibraryPath(destDir, filePath);
    DataSizeExact(img.width, img.height, img.channels);
    assert img.pixels[..DataSize(img.width, img.height, img.channels)] == img.pixels;
    SaveToLibrary(libPath, img.width, img.height, img.channels, img.pixels, fs, now);
    ok := true;
  }

  /** The texture a readable library file becomes: its format follows the channel count. */
  function UploadedImage(t: TextureFile): Image
  {
    Image(CorrectedChannelFormat(t.channels), t.width, t.height, t.pixels)
  }

  /** An imported image, loaded back, is uploaded with its own size, format and pixels. */
  lemma ImportThenLoad(img: DecodedImage)
    requires WellDecoded(img)
    ensures DecodeTexture(EncodeTexture(TextureFileOf(img))).Some?
    ensures var t := DecodeTexture(EncodeTexture(TextureFileOf(img))).value;
      UploadedImage(t) == Image(CorrectedChannelFormat(img.channels), img.width, img.height, img.pixels)
      && img.width * img.height * Components(UploadedImage(t).format) == |img.pixels|
  {
    TextureRoundTrip(TextureFileOf(img));
    CorrectedChannelFormatMatches(img.channels);
  }

  /**
   * A decoded grey-and-alpha image (two channels) uploaded in the format
   * the loaders' channel switch picks is read as RGB: the upload reads
   * more bytes than the decoded pixel buffer holds.
   */
  lemma TwoChannelsReadPastBuffer(img: DecodedImage)
    requires WellDecoded(img) && img.channels == 2
    ensures var up := Image(ChannelFormat(img.channels), img.width, img.height, img.pixels);
      up.format == Rgb && up.width * up.height * Components(up.format) > |up.pixels|
  {
    assert img.width * img.height * 3 == |img.pixels| + img.width * img.height;
  }

  // ---------------------------------------------------------------------
  // Loading a texture resource
  // ---------------------------------------------------------------------

  /** A texture resource: its OpenGL name, size and role (ResourceTexture.h). */
  class ResourceTexture {
    const base: Resource
    var textureID: Handle
    var width: i32
    var height: i32
    var role: string

    /** ResourceTexture(uid): no OpenGL texture yet, size zero, not loaded. */
    constructor(uid: u32)
      ensures fresh(base) && base.uid == uid && base.kind == TextureResource
      ensures base.libraryPath == "" && !base.loaded
      ensures textureID == 0 && width == 0 && height == 0 && role == ""
    {
      base := new Resource.WithUid(uid, TextureResource);
      textureID, width, height := 0, 0, 0;
      role := "";
    }

    /** ResourceTexture::LoadInMemory: nothing when already loaded; otherwise loaded exactly when TextureImporter::Load succeeds. */
    method LoadInMemory(fs: FileSystem, gl: Context)
      requires gl.Valid()
      modifies this, base`loaded, gl
      ensures gl.Valid()
      ensures old(base.loaded) ==> unchanged(this, base, gl)
      ensures !old(base.loaded) ==> base.loaded == LoadSucceeds(base.libraryPath, fs.disk)
      ensures !old(base.loaded) ==> LoadEffect(this, gl, fs.disk)
    {
      if base.loaded {
        return;
      }
      var ok := Load(this, fs, gl);
      if ok {
        base.loaded := true;
      }
    }

    /** ResourceTexture::FreeMemory: when loaded, its texture is deleted, its name reset, and it is no longer loaded. */
    method FreeMemory(gl: Context)
      requires gl.Valid()
      modifies this`textureID, base`loaded, gl`live, gl`buffers, gl`textures
      ensures gl.Valid()
      ensures !old(base.loaded) ==> unchanged(this, base, gl)
      ensures old(base.loaded) ==>
        !base.loaded && textureID == 0
        && gl.live == old(gl.live) - {old(textureID)}
        && gl.buffers == old(gl.buffers) - ({old(textureID)} - {0})
        && gl.textures == old(gl.textures) - ({old(textureID)} - {0})
    {
      if !base.loaded {
        return;
      }
      if textureID != 0 {
        gl.Delete(textureID);
        textureID := 0;
      } else {
        assert {old(textureID)} - {0} == {};
        assert gl.buffers == old(gl.buffers) - {};
        assert gl.textures == old(gl.textures) - {};
      }
      base.loaded := false;
    }

    /**
     * ResourceTexture::Bind: loads the texture first when it is not loaded,
     * then binds its name (whatever it is) to the texture unit.
     */
    method Bind(unit: nat, fs: FileSystem, gl: Context)
      requires gl.Valid()
      modifies this, base`loaded, gl
      ensures gl.Valid()
      ensures old(base.loaded) ==>
        unchanged(this, base) && gl.live == old(gl.live) && gl.buffers == old(gl.buffers) && gl.textures == old(gl.textures)
      ensures !old(base.loaded) ==> base.loaded == LoadSucceeds(base.libraryPath, fs.disk) && LoadState(this, gl, fs.disk)
      ensures gl.calls == old(gl.calls) + [BindTexture(unit, textureID)]
    {
      if !base.loaded {
        LoadInMemory(fs, gl);
      }
      gl.Bind(unit, textureID);
    }
  }

  /** TextureImporter::Load succeeds when the library file opens and the size it announces is not negative. */
  predicate LoadSucceeds(libraryPath: string, disk: Disk)
  {
    LibraryFileReadable(libraryPath, disk) && DecodeTexture(disk[libraryPath].data).Some?
  }

  /**
   * The state TextureImporter::Load leaves: when the file does not open,
   * the resource and the context's names and contents are as before;
   * otherwise the resource takes the header's width and height, and, when
   * the announced size is not negative, a missing name is generated and
   * the decoded image is uploaded to the texture.
   */
  twostate predicate LoadState(r: ResourceTexture, gl: Context, disk: Disk)
    reads r, r.base, gl
  {
    if !LibraryFileReadable(r.base.libraryPath, disk) then
      unchanged(r) && gl.live == old(gl.live) && gl.buffers == old(gl.buffers) && gl.textures == old(gl.textures)
    else
      var b := disk[r.base.libraryPath].data;
      r.width == HeaderInt(b, 0) && r.height == HeaderInt(b, 1) && r.role == old(r.role)
      && gl.buffers == old(gl.buffers)
      && match DecodeTexture(b)
         case None =>
           r.textureID == old(r.textureID) && gl.live == old(gl.live) && gl.textures == old(gl.textures)
         case Some(t) =>
           NameAfterGen(old(r.textureID), r.textureID, old(gl.live))
           && gl.live == old(gl.live) + Generated(old(r.textureID), r.textureID)
           && gl.textures == old(gl.textures)[r.textureID := UploadedImage(t)]
  }

  /** The effect of TextureImporter::Load: its state, with no call recorded and, when the file does not open, the context untouched. */
  twostate predicate LoadEffect(r: ResourceTexture, gl: Context, disk: Disk)
    reads r, r.base, gl
  {
    LoadState(r, gl, disk)
    && if !LibraryFileReadable(r.base.libraryPath, disk) then unchanged(gl) else gl.calls == old(gl.calls)
  }

  /** TextureImporter::Load: upload a texture file into the resource's OpenGL texture. */
  method Load(r: ResourceTexture, fs: FileSystem, gl: Context) returns (ok: bool)
    requires gl.Valid()
    modifies r, gl
    ensures gl.Valid()
    ensures ok == LoadSucceeds(r.base.libraryPath, fs.disk)
    ensures LoadEffect(r, gl, fs.disk)
  {
    var path := r.base.libraryPath;
    if path == "" {
      return false;
    }
    var contents := fs.ReadFile(path);
    if contents.None? {
      return false;
    }
    var b := contents.value;
    var width, height, channels := HeaderInt(b, 0), HeaderInt(b, 1), HeaderInt(b, 2);
    r.width := width;
    r.height := height;
    var dataSize := DataSize(width, height, channels);
    if dataSize < 0 {
      // The pixel vector cannot be allocated.
      return false;
    }
    var data := BytesAt(b, 12, dataSize);
    r.textureID := GenIfUnnamed(r.textureID, gl);
    gl.TexImage(r.textureID, Image(CorrectedChannelFormat(channels), width, height, data));
    ok := true;
  }
}
