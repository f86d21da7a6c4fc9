/**
 `gst_dshow_new_video_caps`: turning a pin's video format description into
 caps. Caps are a tagged value rather than a parsed caps string, and the
 `VIDEOINFOHEADER` the format blob holds is given as already decoded fields.
 */
module VideoCaps {
  import opened Wrappers
  import opened Ascii
  import opened MediaTypes

  /** The raw formats the plugin recognises; every other `GstVideoFormat` is `OtherFormat`. */
  datatype VideoFormat = FormatBgr | FormatI420 | OtherFormat

  /** The fields of `VIDEOINFOHEADER` that are read: `bmiHeader.biWidth`, `bmiHeader.biHeight`, `AvgTimePerFrame`. */
  datatype VideoInfoHeader = VideoInfoHeader(biWidth: int, biHeight: int, avgTimePerFrame: int)

  /** An inclusive integer range; a frame-rate range holds numerators over a denominator of 1. */
  datatype IntRange = IntRange(low: int, high: int)

  datatype Ranges = Ranges(width: IntRange, height: IntRange, framerate: IntRange)

  /** The media the caps describe: raw BGR, raw I420, or DV with its `systemstream` flag. */
  datatype Media = RawBgr | RawI420 | Dv(systemstream: bool)

  /** Caps with the width, height and frame-rate ranges when they are set. */
  datatype Caps = Caps(media: Media, ranges: Option<Ranges>)

  datatype VideoCapsResult = VideoCapsResult(caps: Option<Caps>, pin: PinMediaType)

  /** Frame intervals are in 100-nanosecond units. */
  const UnitsPerSecond: int := 10000000

  const DvPlainName: string := "video/x-dv, systemstream=FALSE"
  const DvSystemStreamName: string := "video/x-dv, systemstream=TRUE"

  /** `name` equals `target` up to ASCII case. */
  predicate SameName(name: string, target: string) {
    Upper(name) == Upper(target)
  }

  /** No name matches both DV names: they differ in a letter, not just in case. */
  lemma DvNamesDistinct()
    ensures Upper(DvPlainName) != Upper(DvSystemStreamName)
  {
    assert DvPlainName[25] == 'F' && DvSystemStreamName[25] == 'T';
    assert Upper(DvPlainName)[25] != Upper(DvSystemStreamName)[25];
  }

  /** The caps the format or name selects, before any ranges are set. */
  function Dispatch(format: VideoFormat, name: string): Option<Media> {
    match format
    case FormatBgr => Some(RawBgr)
    case FormatI420 => Some(RawI420)
    case OtherFormat =>
      if StrICmp(name, DvPlainName) == 0 then Some(Dv(false))
      else if StrICmp(name, DvSystemStreamName) == 0 then Some(Dv(true))
      else None
  }

  /** The shared range step runs: the format is recognised and is not the DV system stream. */
  predicate SetsRanges(format: VideoFormat, name: string) {
    Dispatch(format, name).Some? && Dispatch(format, name) != Some(Dv(true))
  }

  /** Integer frame rate of an interval, truncated as C's `/` does for positive operands. */
  function FrameRate(interval: int): (r: int)
    requires interval > 0
    ensures 0 <= r <= UnitsPerSecond
    ensures r * interval <= UnitsPerSecond < (r + 1) * interval
  {
    UnitsPerSecond / interval
  }

  /**
   `gst_dshow_new_video_caps`. The header's frame interval is divided
   without a check, and so are the capability frame intervals whenever the
   range step runs.
   */
  function NewVideoCaps(format: VideoFormat, name: string, header: VideoInfoHeader, pmt: PinMediaType): (r: VideoCapsResult)
    requires header.avgTimePerFrame > 0
    requires SetsRanges(format, name) ==> pmt.vscc.minFrameInterval > 0 && pmt.vscc.maxFrameInterval > 0
    ensures r.pin.defaultWidth == header.biWidth
    ensures r.pin.defaultHeight == header.biHeight
    ensures r.pin.defaultFPS == FrameRate(header.avgTimePerFrame)
    ensures r.pin.granularityWidth == pmt.vscc.outputGranularityX
    ensures r.pin.granularityHeight == pmt.vscc.outputGranularityY
    ensures r.pin.cell == pmt.cell && r.pin.capturePin == pmt.capturePin
    ensures r.pin.mediatype == pmt.mediatype && r.pin.vscc == pmt.vscc
    ensures format == FormatBgr ==> r.caps.Some? && r.caps.value.media == RawBgr
    ensures format == FormatI420 ==> r.caps.Some? && r.caps.value.media == RawI420
    ensures format == OtherFormat && SameName(name, DvPlainName) ==>
              r.caps.Some? && r.caps.value.media == Dv(false)
    ensures format == OtherFormat && SameName(name, DvSystemStreamName) ==>
              r.caps == Some(Caps(Dv(true), None))
    ensures format == OtherFormat && !SameName(name, DvPlainName) && !SameName(name, DvSystemStreamName) ==>
              r.caps.None?
    ensures r.caps.Some? && r.caps.value.media != Dv(true) ==>
              r.caps.value.ranges == Some(Ranges(
                IntRange(pmt.vscc.minOutputSize.cx, pmt.vscc.maxOutputSize.cx),
                IntRange(pmt.vscc.minOutputSize.cy, pmt.vscc.maxOutputSize.cy),
                IntRange(FrameRate(pmt.vscc.maxFrameInterval), FrameRate(pmt.vscc.minFrameInterval))))
  {
    DvNamesDistinct();
    var pin := pmt.(
      defaultWidth := header.biWidth,
      defaultHeight := header.biHeight,
      defaultFPS := FrameRate(header.avgTimePerFrame),
      granularityWidth := pmt.vscc.outputGranularityX,
      granularityHeight := pmt.vscc.outputGranularityY);
    match Dispatch(format, name)
    case None => VideoCapsResult(None, pin)
    case Some(Dv(true)) => VideoCapsResult(Some(Caps(Dv(true), None)), pin)
    case Some(media) =>
      var v := pmt.vscc;
      var ranges := Ranges(
        IntRange(v.minOutputSize.cx, v.maxOutputSize.cx),
        IntRange(v.minOutputSize.cy, v.maxOutputSize.cy),
        IntRange(FrameRate(v.maxFrameInterval), FrameRate(v.minFrameInterval)));
      VideoCapsResult(Some(Caps(media, Some(ranges))), pin)
  }

  lemma MulLeft(x: int, y: int, z: int)
    requires 0 <= x <= y && 0 <= z
    ensures x * z <= y * z
  {
  }

  lemma MulRight(x: int, y: int, z: int)
    requires 0 <= y <= z && 0 <= x
    ensures x * y <= x * z
  {
  }

  /** A longer frame interval never gives a higher frame rate. */
  lemma FrameRateAntitone(shorter: int, longer: int)
    requires 0 < shorter <= longer
    ensures FrameRate(longer) <= FrameRate(shorter)
  {
    var a, b := FrameRate(longer), FrameRate(shorter);
    if a > b {
      MulLeft(b + 1, a, shorter);
      MulRight(a, shorter, longer);
      assert false;
    }
  }

  /** When the device reports `MinFrameInterval <= MaxFrameInterval`, the frame-rate range is ordered. */
  lemma FrameRateRangeOrdered(format: VideoFormat, name: string, header: VideoInfoHeader, pmt: PinMediaType)
    requires header.avgTimePerFrame > 0
    requires 0 < pmt.vscc.minFrameInterval <= pmt.vscc.maxFrameInterval
    ensures var r := NewVideoCaps(format, name, header, pmt);
            r.caps.Some? && r.caps.value.ranges.Some? ==>
              r.caps.value.ranges.value.framerate.low <= r.caps.value.ranges.value.framerate.high
  {
    FrameRateAntitone(pmt.vscc.minFrameInterval, pmt.vscc.maxFrameInterval);
  }
}
