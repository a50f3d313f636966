// The pixel-format map of the V4L2 backend (arvv4l2misc.c): a static
// table of pairs of a V4L2 fourcc and an ArvPixelFormat, searched from
// its first entry in either direction, with 0 for a code it does not hold.
// Only YUYV is in the table; RGB24 and BGR24 are commented out in the
// source and are not part of it. The ioctl and media-device helpers of the
// same file are left out.
module V4l2Misc {
  import opened Common

  /** V4L2_PIX_FMT_YUYV: v4l2_fourcc ('Y', 'U', 'Y', 'V'). */
  const V4L2_PIX_FMT_YUYV: uint32 := 0x5659_5559

  /** ARV_PIXEL_FORMAT_YUV_422_YUYV_PACKED (arvenums.h). */
  const ARV_PIXEL_FORMAT_YUV_422_YUYV_PACKED: uint32 := 0x0210_0032

  datatype FormatPair = FormatPair(v4l2: uint32, genicam: uint32)

  /** pixel_format_map. */
  const PIXEL_FORMAT_MAP: seq<FormatPair> := [FormatPair(V4L2_PIX_FMT_YUYV, ARV_PIXEL_FORMAT_YUV_422_YUYV_PACKED)]

  /** The GenICam format of the first entry with the V4L2 code, or 0. */
  function GenicamOf(table: seq<FormatPair>, code: uint32): uint32
  {
    if |table| == 0 then 0
    else if table[0].v4l2 == code then table[0].genicam
    else GenicamOf(table[1..], code)
  }

  /** The V4L2 code of the first entry with the GenICam format, or 0. */
  function V4l2Of(table: seq<FormatPair>, format: uint32): uint32
  {
    if |table| == 0 then 0
    else if table[0].genicam == format then table[0].v4l2
    else V4l2Of(table[1..], format)
  }

  /** arv_pixel_format_from_v4l2. */
  method PixelFormatFromV4l2(v4l2PixelFormat: uint32) returns (format: uint32)
    ensures format == GenicamOf(PIXEL_FORMAT_MAP, v4l2PixelFormat)
  {
    var table := PIXEL_FORMAT_MAP;
    var i := 0;
    while i < |table|
      invariant 0 <= i <= |table|
      invariant GenicamOf(table[i..], v4l2PixelFormat) == GenicamOf(table, v4l2PixelFormat)
    {
      assert table[i..][1..] == table[i + 1..];
      if v4l2PixelFormat == table[i].v4l2 {
        return table[i].genicam;
      }
      i := i + 1;
    }
    return 0;
  }

  /** arv_pixel_format_to_v4l2. */
  method PixelFormatToV4l2(pixelFormat: uint32) returns (v4l2: uint32)
    ensures v4l2 == V4l2Of(PIXEL_FORMAT_MAP, pixelFormat)
  {
    var table := PIXEL_FORMAT_MAP;
    var i := 0;
    while i < |table|
      invariant 0 <= i <= |table|
      invariant V4l2Of(table[i..], pixelFormat) == V4l2Of(table, pixelFormat)
    {
      assert table[i..][1..] == table[i + 1..];
      if table[i].genicam == pixelFormat {
        return table[i].v4l2;
      }
      i := i + 1;
    }
    return 0;
  }

  // ---------------------------------------------------------------------
  // Properties

  /** The search from V4L2 gives 0 when no entry has the code, and the GenICam
      format of the first entry that has it. */
  lemma {:induction false} GenicamOfAbsent(table: seq<FormatPair>, code: uint32)
    requires forall i | 0 <= i < |table| :: table[i].v4l2 != code
    ensures GenicamOf(table, code) == 0
    decreases |table|
  {
    if |table| > 0 {
      forall i | 0 <= i < |table[1..]|
        ensures table[1..][i].v4l2 != code
      {
        assert table[1..][i] == table[i + 1];
      }
      GenicamOfAbsent(table[1..], code);
    }
  }

  lemma {:induction false} GenicamOfAt(table: seq<FormatPair>, code: uint32, k: nat)
    requires k < |table| && table[k].v4l2 == code
    requires forall j | 0 <= j < k :: table[j].v4l2 != code
    ensures GenicamOf(table, code) == table[k].genicam
    decreases k
  {
    if k > 0 {
      forall j | 0 <= j < k - 1
        ensures table[1..][j].v4l2 != code
      {
        assert table[1..][j] == table[j + 1];
      }
      assert table[1..][k - 1] == table[k];
      GenicamOfAt(table[1..], code, k - 1);
    }
  }

  /** The same for the search from GenICam. */
  lemma {:induction false} V4l2OfAbsent(table: seq<FormatPair>, format: uint32)
    requires forall i | 0 <= i < |table| :: table[i].genicam != format
    ensures V4l2Of(table, format) == 0
    decreases |table|
  {
    if |table| > 0 {
      forall i | 0 <= i < |table[1..]|
        ensures table[1..][i].genicam != format
      {
        assert table[1..][i] == table[i + 1];
      }
      V4l2OfAbsent(table[1..], format);
    }
  }

  lemma {:induction false} V4l2OfAt(table: seq<FormatPair>, format: uint32, k: nat)
    requires k < |table| && table[k].genicam == format
    requires forall j | 0 <= j < k :: table[j].genicam != format
    ensures V4l2Of(table, format) == table[k].v4l2
    decreases k
  {
    if k > 0 {
      forall j | 0 <= j < k - 1
        ensures table[1..][j].genicam != format
      {
        assert table[1..][j] == table[j + 1];
      }
      assert table[1..][k - 1] == table[k];
      V4l2OfAt(table[1..], format, k - 1);
    }
  }

  /** No two entries share a V4L2 code or a GenICam format. */
  predicate OneToOne(table: seq<FormatPair>)
  {
    forall i, j | 0 <= i < j < |table| :: table[i].v4l2 != table[j].v4l2 && table[i].genicam != table[j].genicam
  }

  /** In a one-to-one table, going to GenICam and back gives the V4L2 code
      of every entry, and the other way round. */
  lemma RoundTrips(table: seq<FormatPair>, k: nat)
    requires OneToOne(table) && k < |table|
    ensures GenicamOf(table, table[k].v4l2) == table[k].genicam
    ensures V4l2Of(table, GenicamOf(table, table[k].v4l2)) == table[k].v4l2
    ensures V4l2Of(table, table[k].genicam) == table[k].v4l2
    ensures GenicamOf(table, V4l2Of(table, table[k].genicam)) == table[k].genicam
  {
    GenicamOfAt(table, table[k].v4l2, k);
    V4l2OfAt(table, table[k].genicam, k);
  }

  /** YUYV maps to YUV_422_YUYV_PACKED and back; every other code, in
      either direction, maps to 0. */
  lemma PixelFormatMap(code: uint32)
    ensures GenicamOf(PIXEL_FORMAT_MAP, V4L2_PIX_FMT_YUYV) == ARV_PIXEL_FORMAT_YUV_422_YUYV_PACKED
    ensures V4l2Of(PIXEL_FORMAT_MAP, ARV_PIXEL_FORMAT_YUV_422_YUYV_PACKED) == V4L2_PIX_FMT_YUYV
    ensures code != V4L2_PIX_FMT_YUYV ==> GenicamOf(PIXEL_FORMAT_MAP, code) == 0
    ensures code != ARV_PIXEL_FORMAT_YUV_422_YUYV_PACKED ==> V4l2Of(PIXEL_FORMAT_MAP, code) == 0
  {
    if code != V4L2_PIX_FMT_YUYV {
      GenicamOfAbsent(PIXEL_FORMAT_MAP, code);
    }
    if code != ARV_PIXEL_FORMAT_YUV_422_YUYV_PACKED {
      V4l2OfAbsent(PIXEL_FORMAT_MAP, code);
    }
  }

  /** The table is one to one, so for every code it maps, going to
      GenICam and back gives the code again. */
  lemma MapRoundTrips(code: uint32)
    requires GenicamOf(PIXEL_FORMAT_MAP, code) != 0
    ensures V4l2Of(PIXEL_FORMAT_MAP, GenicamOf(PIXEL_FORMAT_MAP, code)) == code
  {
    PixelFormatMap(code);
    RoundTrips(PIXEL_FORMAT_MAP, 0);
  }
}
