/** The foliage mask pass of `segmentImage` (app/components/FileUpload.tsx):
    one walk over the canvas's RGBA byte buffer, four bytes per pixel,
    blacking out the colour of every pixel the keep test rejects. */
module Segmentation {
  import opened ColorSpace

  /** Byte `k` of the buffer after the pass: an alpha byte, or a colour
      byte of a kept pixel, is as before; any other colour byte is 0. */
  function MaskedByte(s: seq<Byte>, k: nat): Byte
    requires |s| % 4 == 0 && k < |s|
  {
    var p := k - k % 4;
    if k % 4 == 3 || GreenDominant(s[p], s[p + 1], s[p + 2]) then s[k] else 0
  }

  /** The whole buffer after the pass. */
  function Masked(s: seq<Byte>): (m: seq<Byte>)
    requires |s| % 4 == 0
    ensures |m| == |s|
  {
    seq(|s|, k requires 0 <= k < |s| => MaskedByte(s, k))
  }

  /** The buffer once the pass has handled the bytes before index `i`. */
  function MaskedUpTo(s: seq<Byte>, i: nat): (m: seq<Byte>)
    requires |s| % 4 == 0 && i <= |s|
    ensures |m| == |s|
  {
    seq(|s|, k requires 0 <= k < |s| => if k < i then MaskedByte(s, k) else s[k])
  }

  /** Handling the pixel at `i` blacks out its colour bytes unless the
      keep test accepts it, and changes nothing else. */
  lemma MaskStep(s: seq<Byte>, i: nat)
    requires |s| % 4 == 0 && i % 4 == 0 && i + 4 <= |s|
    ensures MaskedUpTo(s, i)[i] == s[i] && MaskedUpTo(s, i)[i + 1] == s[i + 1] && MaskedUpTo(s, i)[i + 2] == s[i + 2]
    ensures MaskedUpTo(s, i + 4) ==
      if GreenDominant(s[i], s[i + 1], s[i + 2]) then MaskedUpTo(s, i)
      else MaskedUpTo(s, i)[i := 0][i + 1 := 0][i + 2 := 0]
  {
    var before, after := MaskedUpTo(s, i), MaskedUpTo(s, i + 4);
    var keep := GreenDominant(s[i], s[i + 1], s[i + 2]);
    forall k | 0 <= k < |s|
      ensures after[k] == if i <= k < i + 3 && !keep then 0 else before[k]
    {
      if i <= k < i + 4 {
        ByteInPixel(s, i, k - i);
      }
    }
  }

  /** The pass itself, in place on the pixel buffer. */
  method MaskFoliage(data: array<Byte>)
    requires data.Length % 4 == 0
    modifies data
    ensures data[..] == Masked(old(data[..]))
  {
    ghost var original := data[..];
    var i := 0;
    while i < data.Length
      invariant 0 <= i <= data.Length && i % 4 == 0
      invariant data[..] == MaskedUpTo(original, i)
    {
      MaskStep(original, i);
      var r, g, b := data[i], data[i + 1], data[i + 2];
      FoliageIffGreenDominant(r, g, b);
      if !IsFoliage(ToHsv(r, g, b)) {
        data[i] := 0;
        data[i + 1] := 0;
        data[i + 2] := 0;
      }
      i := i + 4;
    }
    assert data[..] == Masked(original);
  }

  /** The pixel starting at `p` after the pass: unchanged when the keep
      test accepts its colour, otherwise black with its alpha intact. */
  lemma MaskedPixel(s: seq<Byte>, p: nat)
    requires |s| % 4 == 0 && p % 4 == 0 && p + 4 <= |s|
    ensures Masked(s)[p..p + 4] ==
      if Keeps(s[p], s[p + 1], s[p + 2]) then s[p..p + 4] else [0, 0, 0, s[p + 3]]
  {
    FoliageIffGreenDominant(s[p], s[p + 1], s[p + 2]);
    var m := Masked(s);
    var expected := if GreenDominant(s[p], s[p + 1], s[p + 2]) then s[p..p + 4] else [0, 0, 0, s[p + 3]];
    forall j | 0 <= j < 4
      ensures m[p..p + 4][j] == expected[j]
    {
      ByteInPixel(s, p, j);
    }
  }

  /** Byte `j` of the pixel starting at `p` after the pass. */
  lemma ByteInPixel(s: seq<Byte>, p: nat, j: nat)
    requires |s| % 4 == 0 && p % 4 == 0 && j < 4 && p + j < |s|
    ensures MaskedByte(s, p + j) == if j == 3 || GreenDominant(s[p], s[p + 1], s[p + 2]) then s[p + j] else 0
  {
    assert (p + j) % 4 == j;
  }

  /** The pass keeps the length and every alpha byte, and only ever
      writes 0 into a colour byte. */
  lemma MaskedPreservesAlpha(s: seq<Byte>)
    requires |s| % 4 == 0
    ensures |Masked(s)| == |s|
    ensures forall k :: 0 <= k < |s| && k % 4 == 3 ==> Masked(s)[k] == s[k]
    ensures forall k :: 0 <= k < |s| ==> Masked(s)[k] == s[k] || Masked(s)[k] == 0
  {
  }

  /** Every pixel of the result is either a pixel of the input that the
      keep test accepts, unchanged, or a black pixel with its alpha. */
  lemma MaskedPixelsAreFoliageOrBlack(s: seq<Byte>, p: nat)
    requires |s| % 4 == 0 && p % 4 == 0 && p + 4 <= |s|
    ensures var m := Masked(s);
      (m[p..p + 4] == s[p..p + 4] && Keeps(m[p], m[p + 1], m[p + 2])) ||
      (m[p] == m[p + 1] == m[p + 2] == 0 && m[p + 3] == s[p + 3] && !Keeps(s[p], s[p + 1], s[p + 2]))
  {
    MaskedPixel(s, p);
    var m := Masked(s);
    assert m[p..p + 4][0] == m[p] && m[p..p + 4][1] == m[p + 1];
    assert m[p..p + 4][2] == m[p + 2] && m[p..p + 4][3] == m[p + 3];
  }

  /** Masking an already masked buffer changes nothing: kept pixels are
      kept again, and black is grey, which the keep test rejects. */
  lemma MaskedIdempotent(s: seq<Byte>)
    requires |s| % 4 == 0
    ensures Masked(Masked(s)) == Masked(s)
  {
    forall k | 0 <= k < |s|
      ensures Masked(Masked(s))[k] == Masked(s)[k]
    {
      RemaskedByte(s, k);
    }
  }

  lemma RemaskedByte(s: seq<Byte>, k: nat)
    requires |s| % 4 == 0 && k < |s|
    ensures MaskedByte(Masked(s), k) == MaskedByte(s, k)
  {
    var m := Masked(s);
    var p, j := k - k % 4, k % 4;
    ByteInPixel(s, p, 0);
    ByteInPixel(s, p, 1);
    ByteInPixel(s, p, 2);
    ByteInPixel(s, p, j);
    ByteInPixel(m, p, j);
  }

  /** An image of `n` copies of the RGBA pixel `px`. */
  function Uniform(px: seq<Byte>, n: nat): (s: seq<Byte>)
    requires |px| == 4
    ensures |s| == 4 * n
    ensures forall k :: 0 <= k < |s| ==> s[k] == px[k % 4]
  {
    seq(4 * n, k requires 0 <= k < 4 * n => px[k % 4])
  }

  /** A single-colour image is left unchanged when its colour is kept
      and becomes black (alpha intact) otherwise. */
  lemma MaskedUniform(px: seq<Byte>, n: nat)
    requires |px| == 4
    ensures Masked(Uniform(px, n)) ==
      if GreenDominant(px[0], px[1], px[2]) then Uniform(px, n) else Uniform([0, 0, 0, px[3]], n)
  {
    var s := Uniform(px, n);
    forall k | 0 <= k < |s|
      ensures Masked(s)[k] == if k % 4 == 3 || GreenDominant(px[0], px[1], px[2]) then px[k % 4] else 0
    {
      UniformByte(px, n, k);
    }
  }

  lemma UniformByte(px: seq<Byte>, n: nat, k: nat)
    requires |px| == 4 && k < 4 * n
    ensures MaskedByte(Uniform(px, n), k) == if k % 4 == 3 || GreenDominant(px[0], px[1], px[2]) then px[k % 4] else 0
  {
    var s := Uniform(px, n);
    var p := k - k % 4;
    assert p % 4 == 0 && (p + 1) % 4 == 1 && (p + 2) % 4 == 2;
    assert s[p] == px[0] && s[p + 1] == px[1] && s[p + 2] == px[2];
  }

  /** A 4 x 4 all-green image, (0, 200, 0) with opaque alpha, passes
      the foliage test everywhere and comes out unchanged. */
  lemma AllGreenUnchanged()
    ensures Masked(Uniform([0, 200, 0, 255], 16)) == Uniform([0, 200, 0, 255], 16)
  {
    MaskedUniform([0, 200, 0, 255], 16);
  }

  /** A 4 x 4 all-red image, (200, 0, 0) with opaque alpha, fails the
      foliage test everywhere and comes out black. */
  lemma AllRedBlackedOut()
    ensures Masked(Uniform([200, 0, 0, 255], 16)) == Uniform([0, 0, 0, 255], 16)
  {
    MaskedUniform([200, 0, 0, 255], 16);
  }
}
