/** The per-pixel byte transforms of the capture path. Each walks its input
    in whole pixel groups and, like `chunks_exact`, ignores a trailing
    partial group. */
module Pixels {
  import opened BoundedInts

  const OPAQUE: byte := 0xFF

  /** The `k`-th whole pixel of a buffer of 3-byte pixels. */
  function Pixel3(s: seq<byte>, k: nat): (p: seq<byte>)
    requires 3 * k + 3 <= |s|
    ensures |p| == 3
  {
    s[3 * k .. 3 * k + 3]
  }

  /** The `k`-th whole pixel of a buffer of 4-byte pixels. */
  function Pixel4(s: seq<byte>, k: nat): (p: seq<byte>)
    requires 4 * k + 4 <= |s|
    ensures |p| == 4
  {
    s[4 * k .. 4 * k + 4]
  }

  /** A window of a suffix is the window of the whole buffer shifted by
      the suffix's start. */
  lemma SliceOfSuffix(s: seq<byte>, d: nat, i: nat, len: nat)
    requires d + i + len <= |s|
    ensures s[d..][i..i + len] == s[d + i..d + i + len]
  {
    var w, v := s[d..][i..i + len], s[d + i..d + i + len];
    assert forall j :: 0 <= j < len ==> w[j] == v[j];
  }

  /** A window past a prefix lies entirely in what follows the prefix. */
  lemma SliceAfterPrefix(a: seq<byte>, b: seq<byte>, i: nat, len: nat)
    requires i + len <= |b|
    ensures (a + b)[|a| + i..|a| + i + len] == b[i..i + len]
  {
    var w, v := (a + b)[|a| + i..|a| + i + len], b[i..i + len];
    assert forall j :: 0 <= j < len ==> w[j] == v[j];
  }

  /** RGB to RGBA: each 3-byte pixel is copied and followed by an opaque
      alpha byte. */
  function ExpandRgb(rgb: seq<byte>): (rgba: seq<byte>)
    ensures |rgba| == 4 * (|rgb| / 3)
    decreases |rgb|
  {
    if |rgb| < 3 then []
    else [rgb[0], rgb[1], rgb[2], OPAQUE] + ExpandRgb(rgb[3..])
  }

  /** BGRA to RGBA: bytes 0 and 2 of each 4-byte pixel change places. */
  function SwapRedBlue(bgra: seq<byte>): (rgba: seq<byte>)
    ensures |rgba| == 4 * (|bgra| / 4)
    decreases |bgra|
  {
    if |bgra| < 4 then []
    else [bgra[2], bgra[1], bgra[0], bgra[3]] + SwapRedBlue(bgra[4..])
  }

  /** RGBA to RGB: the alpha byte of each 4-byte pixel is dropped, never
      composited. */
  function DropAlpha(rgba: seq<byte>): (rgb: seq<byte>)
    ensures |rgb| == 3 * (|rgba| / 4)
    decreases |rgba|
  {
    if |rgba| < 4 then []
    else [rgba[0], rgba[1], rgba[2]] + DropAlpha(rgba[4..])
  }

  /** Pixel `k` of the expansion is RGB pixel `k` followed by an opaque
      alpha. */
  lemma {:induction false} ExpandRgbPixel(rgb: seq<byte>, k: nat)
    requires k < |rgb| / 3
    ensures Pixel4(ExpandRgb(rgb), k) == Pixel3(rgb, k) + [OPAQUE]
    decreases k
  {
    var rest := rgb[3..];
    var e := ExpandRgb(rgb);
    assert e == [rgb[0], rgb[1], rgb[2], OPAQUE] + ExpandRgb(rest);
    if k > 0 {
      assert |rest| / 3 == |rgb| / 3 - 1;
      ExpandRgbPixel(rest, k - 1);
      SliceAfterPrefix([rgb[0], rgb[1], rgb[2], OPAQUE], ExpandRgb(rest), 4 * (k - 1), 4);
      SliceOfSuffix(rgb, 3, 3 * (k - 1), 3);
    }
  }

  /** Every whole RGB pixel reappears, in order, with an opaque alpha. */
  lemma ExpandRgbPixels(rgb: seq<byte>)
    ensures forall k :: 0 <= k < |rgb| / 3 ==> Pixel4(ExpandRgb(rgb), k) == Pixel3(rgb, k) + [OPAQUE]
  {
    forall k | 0 <= k < |rgb| / 3
      ensures Pixel4(ExpandRgb(rgb), k) == Pixel3(rgb, k) + [OPAQUE]
    {
      ExpandRgbPixel(rgb, k);
    }
  }

  /** Pixel `k` of the swap has the red and blue bytes of input pixel `k`
      exchanged and its green and alpha bytes kept. */
  lemma {:induction false} SwapRedBluePixel(bgra: seq<byte>, k: nat)
    requires k < |bgra| / 4
    ensures var p := Pixel4(bgra, k); Pixel4(SwapRedBlue(bgra), k) == [p[2], p[1], p[0], p[3]]
    decreases k
  {
    var rest := bgra[4..];
    var w := SwapRedBlue(bgra);
    assert w == [bgra[2], bgra[1], bgra[0], bgra[3]] + SwapRedBlue(rest);
    if k > 0 {
      assert |rest| / 4 == |bgra| / 4 - 1;
      SwapRedBluePixel(rest, k - 1);
      SliceAfterPrefix([bgra[2], bgra[1], bgra[0], bgra[3]], SwapRedBlue(rest), 4 * (k - 1), 4);
      SliceOfSuffix(bgra, 4, 4 * (k - 1), 4);
    }
  }

  /** Pixel `k` of the flattened buffer is the colour part of RGBA pixel
      `k`. */
  lemma {:induction false} DropAlphaPixel(rgba: seq<byte>, k: nat)
    requires k < |rgba| / 4
    ensures Pixel3(DropAlpha(rgba), k) == Pixel4(rgba, k)[..3]
    decreases k
  {
    var rest := rgba[4..];
    var d := DropAlpha(rgba);
    assert d == [rgba[0], rgba[1], rgba[2]] + DropAlpha(rest);
    if k > 0 {
      assert |rest| / 4 == |rgba| / 4 - 1;
      DropAlphaPixel(rest, k - 1);
      SliceAfterPrefix([rgba[0], rgba[1], rgba[2]], DropAlpha(rest), 3 * (k - 1), 3);
      SliceOfSuffix(rgba, 4, 4 * (k - 1), 4);
    }
  }

  /** Every whole RGBA pixel keeps its colour bytes, in order. */
  lemma DropAlphaPixels(rgba: seq<byte>)
    ensures forall k :: 0 <= k < |rgba| / 4 ==> Pixel3(DropAlpha(rgba), k) == Pixel4(rgba, k)[..3]
  {
    forall k | 0 <= k < |rgba| / 4
      ensures Pixel3(DropAlpha(rgba), k) == Pixel4(rgba, k)[..3]
    {
      DropAlphaPixel(rgba, k);
    }
  }

  /** Flattening the first `n` pixels of an RGBA buffer, as `to_rgb8` does
      for an image of `n` pixels whose container may be longer, keeps the
      colour bytes of exactly those pixels. */
  lemma DropAlphaPrefix(rgba: seq<byte>, n: nat)
    requires 4 * n <= |rgba|
    ensures |DropAlpha(rgba[..4 * n])| == 3 * n
    ensures forall k :: 0 <= k < n ==> Pixel3(DropAlpha(rgba[..4 * n]), k) == Pixel4(rgba, k)[..3]
  {
    var p := rgba[..4 * n];
    assert |p| / 4 == n;
    forall k | 0 <= k < n
      ensures Pixel3(DropAlpha(p), k) == Pixel4(rgba, k)[..3]
    {
      DropAlphaPixel(p, k);
      assert Pixel4(p, k) == Pixel4(rgba, k);
    }
  }

  /** Dropping the alpha that `ExpandRgb` added gives back every whole RGB
      pixel: the flattening before JPEG encoding loses nothing of an RGB
      capture. */
  lemma {:induction false} DropAlphaExpandRgb(rgb: seq<byte>)
    ensures DropAlpha(ExpandRgb(rgb)) == rgb[..3 * (|rgb| / 3)]
    decreases |rgb|
  {
    if |rgb| >= 3 {
      var rest := rgb[3..];
      assert |rest| / 3 == |rgb| / 3 - 1;
      DropAlphaExpandRgb(rest);
      var e := ExpandRgb(rgb);
      assert e == [rgb[0], rgb[1], rgb[2], OPAQUE] + ExpandRgb(rest);
      assert e[4..] == ExpandRgb(rest);
      assert DropAlpha(e) == [rgb[0], rgb[1], rgb[2]] + rest[..3 * (|rest| / 3)];
      assert rgb[..3 * (|rgb| / 3)] == [rgb[0], rgb[1], rgb[2]] + rest[..3 * (|rest| / 3)];
    }
  }

  /** Swapping red and blue twice restores every whole pixel. */
  lemma {:induction false} SwapRedBlueInvolution(s: seq<byte>)
    ensures SwapRedBlue(SwapRedBlue(s)) == s[..4 * (|s| / 4)]
    decreases |s|
  {
    if |s| >= 4 {
      var rest := s[4..];
      assert |rest| / 4 == |s| / 4 - 1;
      SwapRedBlueInvolution(rest);
      var w := SwapRedBlue(s);
      assert w == [s[2], s[1], s[0], s[3]] + SwapRedBlue(rest);
      assert w[4..] == SwapRedBlue(rest);
      assert SwapRedBlue(w) == [s[0], s[1], s[2], s[3]] + rest[..4 * (|rest| / 4)];
      assert s[..4 * (|s| / 4)] == [s[0], s[1], s[2], s[3]] + rest[..4 * (|rest| / 4)];
    }
  }
}
