/**
 * Machine types, the optional-value wrapper, and the little-endian word
 * layout that every binary artifact of the engine uses (uint32_t counts,
 * int headers and 32-bit floats are written with their in-memory bytes).
 */
module Common {
  type byte = x: int | 0 <= x < 0x100
  type u32 = x: int | 0 <= x < 0x1_0000_0000
  type i32 = x: int | -0x8000_0000 <= x < 0x8000_0000
  type u64 = x: int | 0 <= x < 0x1_0000_0000_0000_0000

  /** A 32-bit float, kept as its IEEE-754 bit pattern. */
  type Float32 = u32

  const U32_LIMIT: int := 0x1_0000_0000
  const U64_LIMIT: int := 0x1_0000_0000_0000_0000

  /** A three-component float vector (glm::vec3, aiVector3D). */
  datatype Vec3 = Vec3(x: Float32, y: Float32, z: Float32)
  /** A two-component float vector (glm::vec2). */
  datatype Vec2 = Vec2(x: Float32, y: Float32)

  const ZeroVec3: Vec3 := Vec3(0, 0, 0)

  datatype Option<T> = None | Some(value: T)

  /** Reading one byte of a buffer; a position past the end reads as zero. */
  function ByteAt(b: seq<byte>, i: nat): byte
  {
    if i < |b| then b[i] else 0
  }

  /** The four little-endian bytes of a 32-bit word. */
  function WordBytes(w: u32): (r: seq<byte>)
    ensures |r| == 4
  {
    [w % 0x100, (w / 0x100) % 0x100, (w / 0x1_0000) % 0x100, w / 0x100_0000]
  }

  /** The 32-bit word stored little-endian at byte offset `off`. */
  function WordAt(b: seq<byte>, off: nat): u32
  {
    ByteAt(b, off) + 0x100 * ByteAt(b, off + 1) + 0x1_0000 * ByteAt(b, off + 2)
      + 0x100_0000 * ByteAt(b, off + 3)
  }

  /** The bytes of a block of words, written one after the other. */
  function WordsBytes(ws: seq<u32>): (r: seq<byte>)
    ensures |r| == 4 * |ws|
  {
    if ws == [] then [] else WordBytes(ws[0]) + WordsBytes(ws[1..])
  }

  /** Reading `n` bytes starting at offset `off`; bytes past the end read as zero. */
  function BytesAt(b: seq<byte>, off: nat, n: nat): (r: seq<byte>)
    ensures |r| == n && forall i :: 0 <= i < n ==> r[i] == ByteAt(b, off + i)
    decreases n
  {
    if n == 0 then [] else [ByteAt(b, off)] + BytesAt(b, off + 1, n - 1)
  }

  /** A block of bytes written at offset |pre| reads back as that block. */
  lemma BytesRoundTrip(bs: seq<byte>, pre: seq<byte>, post: seq<byte>)
    ensures BytesAt(pre + bs + post, |pre|, |bs|) == bs
  {
    var b := pre + bs + post;
    assert forall i :: 0 <= i < |bs| ==> b[|pre| + i] == bs[i];
  }

  /** Two's-complement view of a signed 32-bit integer as a word, and back. */
  function I32ToWord(x: i32): u32
  {
    if x < 0 then x + U32_LIMIT else x
  }

  function WordToI32(w: u32): i32
  {
    if w >= 0x8000_0000 then w - U32_LIMIT else w
  }

  /** An int result as the machine keeps it: the mathematical value wrapped to 32 bits, two's complement. */
  function WrapI32(x: int): (r: i32)
    ensures -0x8000_0000 <= x < 0x8000_0000 ==> r == x
  {
    WordToI32(x % U32_LIMIT)
  }

  lemma I32WordRoundTrip(x: i32)
    ensures WordToI32(I32ToWord(x)) == x
  {
  }

  /** Reading back a word that was written at offset |pre| gives the word. */
  lemma WordRoundTrip(w: u32, pre: seq<byte>, post: seq<byte>)
    ensures WordAt(pre + WordBytes(w) + post, |pre|) == w
  {
    var b := pre + WordBytes(w) + post;
    assert b[|pre|] == w % 0x100;
    assert b[|pre| + 1] == (w / 0x100) % 0x100;
    assert b[|pre| + 2] == (w / 0x1_0000) % 0x100;
    assert b[|pre| + 3] == w / 0x100_0000;
    WordDigits(w);
  }

  /** A word is the sum of its four base-256 digits. */
  lemma WordDigits(w: u32)
    ensures w % 0x100 + 0x100 * ((w / 0x100) % 0x100) + 0x1_0000 * ((w / 0x1_0000) % 0x100) + 0x100_0000 * (w / 0x100_0000) == w
  {
    var q1 := w / 0x100;
    var q2 := q1 / 0x100;
    var q3 := q2 / 0x100;
    assert w == 0x100 * q1 + w % 0x100;
    assert q1 == 0x100 * q2 + q1 % 0x100;
    assert q2 == 0x100 * q3 + q2 % 0x100;
    assert q2 == w / 0x1_0000;
    assert q3 == w / 0x100_0000;
  }

  /** Reading `n` words starting at byte offset `off`. */
  function WordsAt(b: seq<byte>, off: nat, n: nat): (r: seq<u32>)
    ensures |r| == n
    decreases n
  {
    if n == 0 then [] else [WordAt(b, off)] + WordsAt(b, off + 4, n - 1)
  }

  /** A block of words written at offset |pre| reads back as that block. */
  lemma {:induction false} BlockRoundTrip(ws: seq<u32>, pre: seq<byte>, post: seq<byte>)
    ensures WordsAt(pre + WordsBytes(ws) + post, |pre|, |ws|) == ws
    decreases |ws|
  {
    if ws != [] {
      var rest := WordsBytes(ws[1..]) + post;
      assert pre + WordsBytes(ws) + post == pre + WordBytes(ws[0]) + rest;
      WordRoundTrip(ws[0], pre, rest);
      assert pre + WordsBytes(ws) + post == (pre + WordBytes(ws[0])) + WordsBytes(ws[1..]) + post;
      BlockRoundTrip(ws[1..], pre + WordBytes(ws[0]), post);
    }
  }

  /** `s` is `t` with some elements dropped and the order of the rest kept. */
  ghost predicate Subsequence<T>(s: seq<T>, t: seq<T>)
    decreases |t|
  {
    if s == [] then true
    else if t == [] then false
    else if s[0] == t[0] then Subsequence(s[1..], t[1..])
    else Subsequence(s, t[1..])
  }

  /** Keeping, in order, the elements that satisfy `keep`. */
  function Filter<T>(s: seq<T>, keep: T -> bool): (r: seq<T>)
    ensures |r| <= |s|
  {
    if s == [] then []
    else if keep(s[0]) then [s[0]] + Filter(s[1..], keep)
    else Filter(s[1..], keep)
  }

  /** What Filter keeps: exactly the elements that satisfy `keep`. */
  lemma {:induction false} FilterMembers<T>(s: seq<T>, keep: T -> bool)
    ensures forall i :: 0 <= i < |Filter(s, keep)| ==> Filter(s, keep)[i] in s && keep(Filter(s, keep)[i])
    ensures forall i :: 0 <= i < |s| && keep(s[i]) ==> s[i] in Filter(s, keep)
  {
    if s != [] {
      FilterMembers(s[1..], keep);
      assert forall i :: 1 <= i < |s| ==> s[i] == s[1..][i - 1];
    }
  }

  /** Filtering a sequence extended by one element extends the filtered sequence by at most that element. */
  lemma {:induction false} FilterSnoc<T>(s: seq<T>, x: T, keep: T -> bool)
    ensures Filter(s + [x], keep) == Filter(s, keep) + (if keep(x) then [x] else [])
    decreases |s|
  {
    if s != [] {
      assert (s + [x])[1..] == s[1..] + [x];
      FilterSnoc(s[1..], x, keep);
    }
  }

  /** One more element of a prefix: what a left-to-right filtering loop adds per step. */
  lemma FilterPrefixStep<T>(s: seq<T>, i: nat, keep: T -> bool)
    requires i < |s|
    ensures Filter(s[..i + 1], keep) == Filter(s[..i], keep) + (if keep(s[i]) then [s[i]] else [])
  {
    assert s[..i + 1] == s[..i] + [s[i]];
    FilterSnoc(s[..i], s[i], keep);
  }

  lemma {:induction false} FilterIsSubsequence<T>(s: seq<T>, keep: T -> bool)
    ensures Subsequence(Filter(s, keep), s)
  {
    if s != [] {
      FilterIsSubsequence(s[1..], keep);
      if !keep(s[0]) {
        SubsequenceOfTail(Filter(s[1..], keep), s);
      }
    }
  }

  lemma {:induction false} SubsequenceOfTail<T>(s: seq<T>, t: seq<T>)
    requires t != [] && Subsequence(s, t[1..])
    ensures Subsequence(s, t)
    decreases |t|, 0
  {
    if s != [] && s[0] == t[0] {
      // Both s[1..] and s are embedded in t[1..]; dropping the head keeps that.
      SubsequenceDropHead(s, t[1..]);
    }
  }

  lemma {:induction false} SubsequenceDropHead<T>(s: seq<T>, t: seq<T>)
    requires s != [] && Subsequence(s, t)
    ensures Subsequence(s[1..], t)
    decreases |t|, 1
  {
    if s[0] == t[0] {
      SubsequenceOfTail(s[1..], t);
    } else {
      SubsequenceDropHead(s, t[1..]);
      SubsequenceOfTail(s[1..], t);
    }
  }

  /** Replacing every element that is `from` by `to`, keeping the rest (std::replace). */
  function ReplaceAll<T(==)>(s: seq<T>, from: T, to: T): (r: seq<T>)
    ensures |r| == |s|
    ensures forall i :: 0 <= i < |s| ==> r[i] == (if s[i] == from then to else s[i])
  {
    if s == [] then [] else [if s[0] == from then to else s[0]] + ReplaceAll(s[1..], from, to)
  }

  /** Equal sequences with the same prefix and suffix have the same middle. */
  lemma SameMiddle<T>(a: seq<T>, x: seq<T>, y: seq<T>, b: seq<T>)
    ensures a + x + b == a + y + b ==> x == y
  {
    if a + x + b == a + y + b {
      assert |x| == |y|;
      assert x == (a + x + b)[|a|..|a| + |x|];
      assert y == (a + y + b)[|a|..|a| + |y|];
    }
  }

  /** The sequence has no element twice. */
  predicate NoDuplicates<T(==)>(s: seq<T>)
  {
    forall i, j :: 0 <= i < j < |s| ==> s[i] != s[j]
  }

  /** Filtering a sequence without repeats gives one without repeats. */
  lemma {:induction false} FilterNoDuplicates<T>(s: seq<T>, keep: T -> bool)
    requires NoDuplicates(s)
    ensures NoDuplicates(Filter(s, keep))
  {
    if s != [] {
      var tail := s[1..];
      assert forall i, j :: 0 <= i < j < |tail| ==> tail[i] == s[i + 1] && tail[j] == s[j + 1];
      FilterNoDuplicates(tail, keep);
      if keep(s[0]) {
        FilterMembers(tail, keep);
        var rest := Filter(tail, keep);
        assert s[0] !in tail;
        assert forall j :: 0 <= j < |rest| ==> rest[j] != s[0];
        assert Filter(s, keep) == [s[0]] + rest;
      }
    }
  }
}
