/** The size computation that the decoder, the compositor and the conversion each repeat. */
module Rgba {
  import opened Bytes
  import opened Wrappers

  const SIZE_MAX := 0xFFFF_FFFF_FFFF_FFFF

  /** The byte size of a width by height RGBA image, unless it is empty or does not fit a `size_t`. */
  function RgbaSize(width: Word, height: Word): Option<nat> {
    if width == 0 || height == 0 || width > SIZE_MAX / height then None
    else
      var pixels := width * height;
      if pixels > SIZE_MAX / 4 then None else Some(pixels * 4)
  }

  /** The two division tests are the overflow test. */
  lemma RgbaSizeIsExact(width: Word, height: Word)
    ensures RgbaSize(width, height) ==
            if 0 < width && 0 < height && width * height * 4 < 0x1_0000_0000_0000_0000 then Some(width * height * 4) else None
  {
    if 0 < width && 0 < height {
      var q := SIZE_MAX / height;
      assert q * height <= SIZE_MAX < (q + 1) * height;
      if width > q {
        assert width * height >= (q + 1) * height;
      } else {
        assert width * height <= q * height;
      }
    }
  }
}
