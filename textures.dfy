/**
 * Textures.cpp: the texture record the renderer uses, and the texture
 * module's list of loaded textures. Image decoding is an input: a map from
 * the paths that decode to their decoded images.
 */
module Textures {
  import opened Common
  import opened FileSystem
  import opened Gl
  import opened TextureImporter
  import Strings

  /** The file a texture is loaded from: the directory with '/' separators, a '/' only where one is missing, then the file name. */
  function JoinTexturePath(directory: string, filename: string): (p: string)
    ensures |p| >= |filename| && '\\' !in p[..|p| - |filename|] && p[|p| - |filename|..] == filename
  {
    var dir := NormalizePath(directory);
    if dir != [] && dir[|dir| - 1] != '/' then dir + "/" + filename else dir + filename
  }

  /**
   * A file name without separators is what the joined path's last
   * component reads back as, whatever the directory.
   */
  lemma JoinTexturePathFileName(directory: string, filename: string)
    requires '/' !in filename
    ensures FileNameOf(JoinTexturePath(directory, filename)) == filename
  {
    var p := JoinTexturePath(directory, filename);
    var head := p[..|p| - |filename|];
    JoinTexturePathSeparated(directory, filename);
    assert p == head + filename;
    var k := Strings.LastIndexOf(p, '/');
    if head == [] {
      assert p == filename;
    } else {
      assert p[|head| - 1] == '/';
      assert forall j :: |head| <= j < |p| ==> p[j] == filename[j - |head|];
    }
  }

  /** The directory part of a joined path is empty or ends in '/'. */
  lemma JoinTexturePathSeparated(directory: string, filename: string)
    ensures var p := JoinTexturePath(directory, filename);
      var head := p[..|p| - |filename|];
      head == [] || head[|head| - 1] == '/'
  {
    var p := JoinTexturePath(directory, filename);
    assert p[..|p| - |filename|] == if NormalizePath(directory) != [] && NormalizePath(directory)[|NormalizePath(directory)| - 1] != '/'
      then NormalizePath(directory) + "/" else NormalizePath(directory);
  }

  class Texture {
    var id: Handle
    var mapType: string
    var path: string
    var texW: i32
    var texH: i32
    var texturesLoaded: seq<Texture>
    const defaultTexDir: string

    /** Texture(): id -1 (0xFFFFFFFF as an unsigned int), empty type and path, zero size, nothing loaded. */
    constructor()
      ensures id == 0xFFFF_FFFF && mapType == "" && path == "" && texW == 0 && texH == 0
      ensures texturesLoaded == [] && defaultTexDir == "../Assets/Textures/checkers.jpg"
    {
      id := 0xFFFF_FFFF;
      mapType := "";
      path := "";
      texW, texH := 0, 0;
      texturesLoaded := [];
      defaultTexDir := "../Assets/Textures/checkers.jpg";
    }

    /**
     * Texture::TextureFromFile: a new texture name every call; when the
     * joined path decodes, the image goes to that name (in the format its
     * channel count calls for) and its size is recorded; the path is
     * recorded either way.
     */
    method TextureFromFile(directory: string, filename: string, images: map<string, DecodedImage>, gl: Context)
      returns (r: Handle)
      requires gl.Valid()
      modifies this`id, this`texW, this`texH, this`path, gl`live, gl`next, gl`textures
      ensures gl.Valid()
      ensures r == id && id != 0 && id !in old(gl.live) && gl.live == old(gl.live) + {id}
      ensures path == JoinTexturePath(directory, filename)
      ensures path in images ==>
        var img := images[path];
        texW == img.width && texH == img.height
        && gl.textures == old(gl.textures)[id := Image(CorrectedChannelFormat(img.channels), img.width, img.height, img.pixels)]
      ensures path !in images ==> texW == old(texW) && texH == old(texH) && gl.textures == old(gl.textures)
    {
      var filePath := JoinTexturePath(directory, filename);
      var name := gl.Gen();
      id := name;
      if filePath in images {
        var img := images[filePath];
        gl.TexImage(id, Image(CorrectedChannelFormat(img.channels), img.width, img.height, img.pixels));
        texW, texH := img.width, img.height;
      }
      path := filePath;
      r := id;
    }
  }
}
