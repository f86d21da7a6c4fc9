# DirectShow helper layer of the `dshowsrcwrapper` plugin, modelled in Dafny

`sys/dshowsrcwrapper/gstdshow.cpp` bridges GStreamer to DirectShow. Once the
COM objects are replaced by plain data, what is left is a small amount of
sequential logic, and that is what this project models and proves things about:

* the lifecycle of `AM_MEDIA_TYPE` records and of the plugin's
  `GstCapturePinMediaType` records (`mediatypes.dfy`): memory blocks are numbers
  in a set of live blocks, and interface pointers are handles in a
  reference-count ledger (`ledger.dfy`, a map from handle to count);
* the GUID match of `gst_dshow_check_mediatype`, with GUIDs as 16 bytes and
  `UuidCompare` as a byte-wise three-way comparison (`guids.dfy`);
* the three enumeration loops (`discovery.dfy`): picking a pin of a filter,
  picking a registered filter for a media-type pair with an optional
  preferred name, and resolving a device's friendly name to its display name.
  Each enumerator is the finite sequence of what its `Next` hands out. Each
  candidate record says what binding it yields, its friendly name, its display
  name, or its direction. An enumerator that cannot be set up is `None`;
* the format dispatch and range computation of `gst_dshow_new_video_caps`
  (`videocaps.dfy`), with caps as a tagged datatype;
* the string primitives these use (`ascii.dfy`): `_strupr`, `strstr`,
  `_stricmp` and `g_strcasecmp`, all on ASCII.

Every reply from COM (`GetStreamCaps`, `QueryDirection`, `BindToObject`,
`GetDisplayName`, property-bag reads) is a field of the input records. The
memory allocator's fresh block is a parameter.

Behaviour kept exactly as the code has it:

* Both moniker loops call `Next` before testing their stop flag
  (`gstdshow.cpp:180-181`, `276-277`). After the stop, one more moniker is
  fetched and never released. `Discovery.LeakedFilterMoniker` and
  `Discovery.LeakedDeviceFrom` name that moniker, and the ledger postconditions
  of `FindFilter` and `GetDeviceFromDeviceName` count its reference.
* `gst_dshow_free_pin_mediatype` clears the pin and media-type fields but
  never frees the record's own block (`gstdshow.cpp:45-58`). So when
  `GetStreamCaps` fails, `gst_dshow_new_pin_mediatype` returns NULL with its
  `g_new0` block still live (`gstdshow.cpp:63-69`), and
  `gst_dshow_free_pins_mediatypes` leaves every record's block live.
* The `I420` case falls through to `default`; nothing follows it, so it behaves
  like a `break`.
* The `systemstream=TRUE` DV name returns before the range step.

Two details of the selection loops:

* The preferred-name test in `gst_dshow_find_filter` upper-cases both the
  friendly name and the preference before `strstr` (`gstdshow.cpp:156-158`,
  `199`, `217-218`).
* With no device name given, `gst_dshow_getdevice_from_devicename` adopts the
  first friendly name it can read. A device whose property bag or name cannot
  be read is skipped (`gstdshow.cpp:282-294`).

## Model

| member | source | states |
|---|---|---|
| `MediaTypes.FreeMediaType` | sys/dshowsrcwrapper/gstdshow.cpp:25-42 | NULL is a no-op. The blob is freed only when `cbFormat != 0`, and then `cbFormat` becomes 0 and `pbFormat` NULL; a zero-length record keeps its blob pointer. `pUnk` is released once and cleared. The record's own block is freed. The GUIDs are unchanged. |
| `MediaTypes.FreeMediaTypeReleasesOnce` | sys/dshowsrcwrapper/gstdshow.cpp:29-38 | After one free, the record holds nothing. Running the clean-up again releases no reference and frees no blob, so the net ledger change is exactly one release of `pUnk`. |
| `Guids.UuidCompare` | sys/dshowsrcwrapper/gstdshow.cpp:98-102 | The comparison returns -1, 0 or 1, and returns 0 exactly when the two GUIDs are equal. |
| `Guids.CompareZeroIffEqual` | sys/dshowsrcwrapper/gstdshow.cpp:98-102 | The byte-wise three-way comparison is 0 if and only if the byte strings are equal. |
| `MediaTypes.CheckMediaType` | sys/dshowsrcwrapper/gstdshow.cpp:90-103 | The result is true exactly when the record is non-NULL, its `subtype` equals the given sub type, and its `formattype` equals the given format type. A NULL record gives false. |
| `MediaTypes.FreePinMediaType` | sys/dshowsrcwrapper/gstdshow.cpp:44-58 | NULL is a no-op. Otherwise the pin and the media type are given up and both fields cleared. The ledger loses exactly the references the record held. Only the media type's blocks are freed; the record's block is not. |
| `MediaTypes.NewPinMediaType` | sys/dshowsrcwrapper/gstdshow.cpp:60-76 | The result is non-NULL exactly when `GetStreamCaps` succeeds with a non-NULL media type. On failure, the pin's count is unchanged, any returned media type is freed, and the `g_new0` block stays live. On success, `capture_pin` is the pin, whose count rises by exactly one, and the record carries the returned media type and capabilities. |
| `MediaTypes.NewThenFreeBalancesPin` | sys/dshowsrcwrapper/gstdshow.cpp:44-76 | Creating a record and then freeing it leaves every count where it began, apart from the media type's `pUnk` release. The record's own block is still live afterwards. |
| `MediaTypes.FreePinsMediaTypes` | sys/dshowsrcwrapper/gstdshow.cpp:78-88 | The records live in a store keyed by their block, and each listed record is cleared in place. A record listed twice therefore gives up its references and blocks only once. Each count drops by the references held by the distinct listed records. Their media types' blocks and the list nodes are freed; the records' own blocks and unlisted records are untouched. |
| `MediaTypes.RepeatedRecordCountedOnce` | sys/dshowsrcwrapper/gstdshow.cpp:48-56 | A list whose nodes all point to one record names it once. The references freed are those of that one record, because the first visit clears its fields. |
| `Discovery.GetPinFromFilter` | sys/dshowsrcwrapper/gstdshow.cpp:105-133 | The result is true exactly when some pin's `QueryDirection` succeeds with the wanted direction. The pin returned is the first such pin in enumeration order. With no match, or when `EnumPins` fails, the result is false and the pin NULL. Only the returned pin's count changes, by one; every pin inspected before it is net zero. |
| `Discovery.VisitMoniker` | sys/dshowsrcwrapper/gstdshow.cpp:182-233 | One loop step of `find_filter`. `ret` becomes true when the moniker binds. A bound moniker replaces the held filter only when the caller wants the filter. The exit flag is set when binding succeeds and either no filter is wanted, no preference is given, or the upper-cased friendly name contains the upper-cased preference. The ledger carries exactly one extra reference, on the held filter, before and after the step. |
| `Discovery.FindFilter` | sys/dshowsrcwrapper/gstdshow.cpp:135-245 | `ret` is true exactly when some candidate binds. Without a preference, the filter is the first bound candidate. With one, it is the first preferred bound candidate, otherwise the last bound candidate. With a NULL output slot, no filter is returned. The returned filter holds one reference. The one further change is the leaked moniker fetched after the stop. |
| `Discovery.FindFilterSelects` | sys/dshowsrcwrapper/gstdshow.cpp:205-229 | From the loop's exit state: the filter held is non-NULL exactly when some scanned candidate bound. It is the first bound candidate without a preference. With a preference, it is the first preferred candidate, or the last bound one when none is preferred. |
| `Discovery.LastBoundIsLast` | sys/dshowsrcwrapper/gstdshow.cpp:208-215 | Because each bound candidate replaces the one held before it, the filter held after `n` candidates is that of a bound candidate with no bound candidate after it. It is non-NULL exactly when one of them bound. |
| `Discovery.FilterLeakFollowsFirstStop` | sys/dshowsrcwrapper/gstdshow.cpp:180-181 | The moniker `Next` fetches after the exit flag is set is the one right after the first stopping candidate. There is none when that candidate was the last one. |
| `Discovery.FilterNoStopNoLeak` | sys/dshowsrcwrapper/gstdshow.cpp:180-181 | When no candidate sets the exit flag, enumeration runs out and no moniker is left unreleased. |
| `Discovery.GetDeviceFromDeviceName` | sys/dshowsrcwrapper/gstdshow.cpp:248-323 | A given device name is left alone. A NULL one becomes the first readable friendly name, and stays NULL only when no name is readable. The result is the display name of the first device whose friendly name equals the name case-insensitively; the search stops there even when `GetDisplayName` fails, giving NULL. No match gives NULL. With an adopted name, the result is the first readable device's display name. The only count left changed is that of the moniker fetched after the match. |
| `Discovery.SkipUnmatchedDevices` | sys/dshowsrcwrapper/gstdshow.cpp:276-311 | Devices that cannot match the target are passed over without changing which moniker the loop leaks. |
| `Discovery.DeviceLeakFollowsFirstMatch` | sys/dshowsrcwrapper/gstdshow.cpp:276-277 | The moniker fetched after the device loop stops is the one right after the first matching device. There is none when that device was the last one. |
| `Ascii.StrICmp` | sys/dshowsrcwrapper/gstdshow.cpp:296 | `_stricmp` (and `g_strcasecmp`) returns 0 exactly when both strings, upper-cased, are equal. |
| `Ascii.Upper` | sys/dshowsrcwrapper/gstdshow.cpp:156-158 | `_strupr` keeps the length and leaves no lower-case ASCII letter. Each lower-case letter becomes its capital, 32 code points lower, and every other character is kept. The same call upper-cases the friendly name at line 199. |
| `Ascii.Contains` | sys/dshowsrcwrapper/gstdshow.cpp:217-218 | The `strstr` scan finds the needle exactly when it occurs as a contiguous run somewhere in the haystack. |
| `VideoCaps.FrameRate` | sys/dshowsrcwrapper/gstdshow.cpp:364 | The frame rate of a positive interval lies in [0, 10000000]. It is the truncated quotient: rate times interval is at most 10000000, and rate plus one times interval exceeds it. |
| `VideoCaps.NewVideoCaps` | sys/dshowsrcwrapper/gstdshow.cpp:353-418 | Default width, height, FPS and granularity come from the header and capabilities, whatever the outcome. The raw format takes precedence over the name. The DV `systemstream=TRUE` name gives DV caps without ranges, and an unrecognised format and name give NULL. Otherwise the caps carry width `[MinOutputSize.cx, MaxOutputSize.cx]`, height `[MinOutputSize.cy, MaxOutputSize.cy]`, and frame rate `[10000000/MaxFrameInterval, 10000000/MinFrameInterval]`. |
| `VideoCaps.DvNamesDistinct` | sys/dshowsrcwrapper/gstdshow.cpp:381-389 | No name matches both DV names case-insensitively, so the order of the two tests does not matter. |
| `VideoCaps.FrameRateAntitone` | sys/dshowsrcwrapper/gstdshow.cpp:414-415 | A longer frame interval never gives a higher frame rate. |
| `VideoCaps.FrameRateRangeOrdered` | sys/dshowsrcwrapper/gstdshow.cpp:408-415 | When the device reports `MinFrameInterval <= MaxFrameInterval`, the frame-rate range of the caps has its low end at most its high end. |

## Left out

- `gst_dshow_show_propertypage` (`gstdshow.cpp:325-351`): it only shows a modal dialog, and it always returns FALSE.
- `MediaTypes.CheckMediaType`: on a NULL record, `g_return_val_if_fail` (`gstdshow.cpp:96`) logs a `g_critical` as well as returning FALSE. The model returns FALSE but has no log; under `G_DEBUG=fatal-criticals` that log would abort the program.
- COM itself. The results of `CoCreateInstance`, `EnumMatchingFilters`, `CreateClassEnumerator`, `EnumPins`, `BindToStorage`, `BindToObject`, property-bag reads, `GetDisplayName`, `QueryDirection` and `GetStreamCaps` are inputs. The type GUIDs passed to `EnumMatchingFilters` only choose which candidates arrive, so they are not parameters.
- The enumerator and factory objects (`enumpins`, `enum_moniker`, `mapper`, `devices_enum`) are not in the ledger. The code releases each once on every path; only the objects handed out by `Next` and `BindToObject` are tracked.
- UTF-16 to UTF-8 conversion, `SysFreeString`, `CoTaskMemFree` of display names, and string allocation. Names are taken as already-converted strings. A conversion that returns NULL is not modelled; in `getdevice_from_devicename` it would pass NULL to `_stricmp`. The friendly name that loop converts is never freed, and that leak is not tracked.
- The `id` argument of `gst_dshow_new_pin_mediatype` only selects which reply `GetStreamCaps` gives; the reply is the parameter.
- Reinterpreting the `pbFormat` blob as a `VIDEOINFOHEADER`: the header fields are inputs. The code divides by `AvgTimePerFrame` without a check, and by both capability frame intervals whenever the range step runs. Those are positive by precondition, so C's truncating division and Dafny's agree.
- Integer widths. `LONG`, `LONGLONG` and `gint` values are unbounded integers. The quotients are at most 10000000, so the `(gint)` casts do not change them.
- A NULL `name` in `gst_dshow_new_video_caps`. The name is always a string here. GLib's `g_strcasecmp` returns 0 for a NULL argument, so the code would pick the DV `systemstream=FALSE` caps.
- Caps construction: `gst_caps_from_string`, the caps string contents, and the GStreamer structure API. Caps are a tagged value holding the ranges.
- `Guids.UuidCompare`: the sign for unequal GUIDs follows byte order, not the field order of the RPC runtime. The code only tests for zero.
- `Ascii.StrICmp`: for a proper prefix, only the sign is modelled, not the difference against the terminating NUL. The code only tests for zero.
- `Ascii.Upper`: case folding is ASCII only, as in the C locale; `_strupr` is locale-dependent.
- `Discovery.FindFilter`: that the loop never holds more than one extra filter reference is a loop invariant (and `VisitMoniker`'s postcondition), not a postcondition of the method.
