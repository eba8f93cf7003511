/**
 * The slice of the OpenGL context the resource code uses: object names
 * handed out by glGen*, released by glDelete*, the contents uploaded into
 * buffers and textures, and the draw and bind calls issued. One counter
 * serves vertex arrays, buffers and textures alike.
 */
module Gl {
  import opened Common

  /** An OpenGL object name; 0 is never handed out. */
  type Handle = nat

  datatype PixelFormat = Red | Rg | Rgb | Rgba

  /** A texture image as glTexImage2D receives it. */
  datatype Image = Image(format: PixelFormat, width: int, height: int, pixels: seq<byte>)

  datatype Call =
    | DrawElements(vertexArray: Handle, count: u32)
    | BindTexture(unit: nat, texture: Handle)

  /** Bytes per pixel of a format. */
  function Components(f: PixelFormat): nat
  {
    match f
    case Red => 1
    case Rg => 2
    case Rgb => 3
    case Rgba => 4
  }

  /** The pixel format the texture loaders choose for a channel count: 1 is RED, 3 RGB, 4 RGBA, anything else RGB. */
  function ChannelFormat(channels: int): (f: PixelFormat)
    ensures f != Rg
  {
    if channels == 1 then Red
    else if channels == 3 then Rgb
    else if channels == 4 then Rgba
    else Rgb
  }

  /** The chosen format describes the data exactly for 1, 3 and 4 channels, and for no other count. */
  lemma ChannelFormatMatches(channels: int)
    ensures channels in {1, 3, 4} <==> Components(ChannelFormat(channels)) == channels
  {
  }

  /** The format the channel switch evidently means: one per channel count the decoder produces. */
  function CorrectedChannelFormat(channels: int): PixelFormat
  {
    if channels == 1 then Red
    else if channels == 2 then Rg
    else if channels == 3 then Rgb
    else if channels == 4 then Rgba
    else Rgb
  }

  /** For every channel count the decoder produces, the corrected format has exactly that many components. */
  lemma CorrectedChannelFormatMatches(channels: int)
    ensures 1 <= channels <= 4 <==> Components(CorrectedChannelFormat(channels)) == channels
    ensures channels != 2 ==> CorrectedChannelFormat(channels) == ChannelFormat(channels)
  {
  }

  class Context {
    var live: set<Handle>
    var next: Handle
    var buffers: map<Handle, seq<u32>>
    var textures: map<Handle, Image>
    var calls: seq<Call>

    ghost predicate Valid()
      reads this
    {
      0 < next && forall h :: h in live ==> 0 < h < next
    }

    constructor()
      ensures Valid() && live == {} && buffers == map[] && textures == map[] && calls == []
    {
      live := {};
      next := 1;
      buffers := map[];
      textures := map[];
      calls := [];
    }

    /** glGen*: a new, nonzero name that no live object has. */
    method Gen() returns (h: Handle)
      requires Valid()
      modifies this`live, this`next
      ensures Valid()
      ensures h != 0 && h !in old(live) && live == old(live) + {h}
    {
      h := next;
      next := next + 1;
      live := live + {h};
    }

    /** glDelete*: the name and whatever it held are released. */
    method Delete(h: Handle)
      requires Valid()
      modifies this`live, this`buffers, this`textures
      ensures Valid()
      ensures live == old(live) - {h}
      ensures buffers == old(buffers) - {h} && textures == old(textures) - {h}
    {
      live := live - {h};
      buffers := buffers - {h};
      textures := textures - {h};
    }

    /** glBufferData on the buffer bound to `h`. */
    method BufferData(h: Handle, words: seq<u32>)
      modifies this`buffers
      ensures buffers == old(buffers)[h := words]
    {
      buffers := buffers[h := words];
    }

    /** glTexImage2D on the texture bound to `h`. */
    method TexImage(h: Handle, image: Image)
      modifies this`textures
      ensures textures == old(textures)[h := image]
    {
      textures := textures[h := image];
    }

    /** glBindVertexArray followed by glDrawElements. */
    method Draw(vertexArray: Handle, count: u32)
      modifies this`calls
      ensures calls == old(calls) + [DrawElements(vertexArray, count)]
    {
      calls := calls + [DrawElements(vertexArray, count)];
    }

    /** glActiveTexture followed by glBindTexture. */
    method Bind(unit: nat, texture: Handle)
      modifies this`calls
      ensures calls == old(calls) + [BindTexture(unit, texture)]
    {
      calls := calls + [BindTexture(unit, texture)];
    }
  }

  /** A name after `if (name == 0) glGen*(1, &name)`: kept when nonzero, otherwise one no live object had. */
  predicate NameAfterGen(before: Handle, after: Handle, live: set<Handle>)
  {
    if before != 0 then after == before else after != 0 && after !in live
  }

  /** The names such a step adds to the live ones. */
  function Generated(before: Handle, after: Handle): set<Handle>
  {
    if before == 0 then {after} else {}
  }

  /** `if (name == 0) glGen*(1, &name)`. */
  method GenIfUnnamed(h: Handle, gl: Context) returns (named: Handle)
    requires gl.Valid()
    modifies gl`live, gl`next
    ensures gl.Valid()
    ensures NameAfterGen(h, named, old(gl.live)) && gl.live == old(gl.live) + Generated(h, named)
  {
    named := h;
    if h == 0 {
      named := gl.Gen();
    }
  }
}
