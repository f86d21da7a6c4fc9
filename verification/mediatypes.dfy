/**
 The lifecycle of `AM_MEDIA_TYPE` records and of the plugin's
 `GstCapturePinMediaType` records, with the COM objects replaced by plain
 data: memory blocks are numbers in a set of live blocks, interface
 pointers are handles in a reference-count ledger.
 */
module MediaTypes {
  import opened Wrappers
  import opened Ledger
  import opened Guids

  /** The address of a block from `CoTaskMemAlloc` or `g_malloc`. */
  type Ptr = nat

  /** What the helpers change outside the records they are given. */
  datatype Env = Env(refs: Refs, live: set<Ptr>)

  /** A record the helpers return or update, together with the environment afterwards. */
  datatype Outcome<T> = Outcome(value: T, env: Env)

  /** `CoTaskMemFree` / `g_free`: the block is no longer live; a NULL pointer is ignored. */
  function FreeBlock(env: Env, p: Option<Ptr>): (r: Env)
    ensures r.refs == env.refs
    ensures p.None? ==> r.live == env.live
    ensures p.Some? ==> r.live == env.live - {p.value}
  {
    match p
    case None => env
    case Some(q) => env.(live := env.live - {q})
  }

  /** `Release` on an interface pointer that may be NULL. */
  function ReleaseOpt(env: Env, h: Option<Handle>): (r: Env)
    ensures r.live == env.live
    ensures forall k: Handle :: Count(r.refs, k) == Count(env.refs, k) - (if h == Some(k) then 1 else 0)
  {
    match h
    case None => env
    case Some(k) => env.(refs := Release(env.refs, k))
  }

  /**
   `AM_MEDIA_TYPE`: `block` is the record's own allocation, `pbFormat` the
   format blob of `cbFormat` bytes, `pUnk` an optional embedded object.
   */
  datatype AmMediaType = AmMediaType(
    block: Ptr,
    majortype: Guid,
    subtype: Guid,
    formattype: Guid,
    cbFormat: nat,
    pbFormat: Option<Ptr>,
    pUnk: Option<Handle>)

  /** The blob `gst_dshow_free_mediatype` hands back: only one with a non-zero length. */
  function BlobFreed(m: AmMediaType): set<Ptr> {
    if m.cbFormat != 0 && m.pbFormat.Some? then {m.pbFormat.value} else {}
  }

  /** Every block `gst_dshow_free_mediatype` frees for the record. */
  function MediaBlocks(m: Option<AmMediaType>): set<Ptr> {
    match m
    case None => {}
    case Some(t) => {t.block} + BlobFreed(t)
  }

  /** The number of references a media record holds on `h`: its `pUnk`, if any. */
  function MediaHolds(m: Option<AmMediaType>, h: Handle): nat {
    if m.Some? && m.value.pUnk == Some(h) then 1 else 0
  }

  /**
   `gst_dshow_free_mediatype`. The result's value is the record as it stood
   just before its own block was freed.
   */
  function FreeMediaType(pmt: Option<AmMediaType>, env: Env): (r: Outcome<Option<AmMediaType>>)
    ensures pmt.None? ==> r == Outcome(None, env)
    ensures pmt.Some? ==> r.value.Some?
    ensures pmt.Some? && pmt.value.cbFormat != 0 ==>
              r.value.value.cbFormat == 0 && r.value.value.pbFormat.None?
    ensures pmt.Some? && pmt.value.cbFormat == 0 ==> r.value.value.pbFormat == pmt.value.pbFormat
    ensures pmt.Some? ==> r.value.value.pUnk.None?
    ensures pmt.Some? ==>
              && r.value.value.block == pmt.value.block
              && r.value.value.majortype == pmt.value.majortype
              && r.value.value.subtype == pmt.value.subtype
              && r.value.value.formattype == pmt.value.formattype
    ensures r.env.live == env.live - MediaBlocks(pmt)
    ensures forall h: Handle :: Count(r.env.refs, h) == Count(env.refs, h) - MediaHolds(pmt, h)
  {
    match pmt
    case None => Outcome(None, env)
    case Some(m) =>
      var (m1, env1) :=
        if m.cbFormat != 0 then (m.(cbFormat := 0, pbFormat := None), FreeBlock(env, m.pbFormat))
        else (m, env);
      var (m2, env2) :=
        if m1.pUnk.Some? then (m1.(pUnk := None), ReleaseOpt(env1, m1.pUnk))
        else (m1, env1);
      Outcome(Some(m2), FreeBlock(env2, Some(m.block)))
  }

  /**
   A record that went through `gst_dshow_free_mediatype` holds nothing any
   more: running the clean-up steps on it again releases no reference and
   frees no blob, so `pUnk` and the blob are given back exactly once.
   */
  lemma FreeMediaTypeReleasesOnce(m: AmMediaType, env: Env)
    ensures var first := FreeMediaType(Some(m), env);
            var again := FreeMediaType(first.value, first.env);
            && (forall h: Handle :: Count(again.env.refs, h) == Count(first.env.refs, h))
            && again.env.live == first.env.live - {m.block}
            && (forall h: Handle :: Count(again.env.refs, h) == Count(env.refs, h) - MediaHolds(Some(m), h))
  {
  }

  /** `gst_dshow_check_mediatype`: both GUIDs are compared with `UuidCompare`. */
  function CheckMediaType(pmt: Option<AmMediaType>, subType: Guid, formatType: Guid): (r: bool)
    ensures r <==> pmt.Some? && pmt.value.subtype == subType && pmt.value.formattype == formatType
  {
    match pmt
    case None => false
    case Some(m) => UuidCompare(m.subtype, subType) == 0 && UuidCompare(m.formattype, formatType) == 0
  }

  datatype Size = Size(cx: int, cy: int)

  /** The fields of `VIDEO_STREAM_CONFIG_CAPS` the plugin reads. */
  datatype StreamConfigCaps = StreamConfigCaps(
    minOutputSize: Size,
    maxOutputSize: Size,
    outputGranularityX: int,
    outputGranularityY: int,
    minFrameInterval: int,
    maxFrameInterval: int)

  /**
   `GstCapturePinMediaType`: `cell` is its own `g_new0` block, `capturePin`
   the pin it holds a reference on, `mediatype` the record it owns.
   */
  datatype PinMediaType = PinMediaType(
    cell: Ptr,
    capturePin: Option<Handle>,
    mediatype: Option<AmMediaType>,
    vscc: StreamConfigCaps,
    defaultWidth: int,
    defaultHeight: int,
    defaultFPS: int,
    granularityWidth: int,
    granularityHeight: int)

  /** The number of references a pin record holds on `h`: its pin and its media type's `pUnk`. */
  function PinHolds(p: Option<PinMediaType>, h: Handle): nat {
    if p.None? then 0
    else (if p.value.capturePin == Some(h) then 1 else 0) + MediaHolds(p.value.mediatype, h)
  }

  /** The blocks `gst_dshow_free_pin_mediatype` frees: those of the media type, never `cell`. */
  function PinBlocks(p: Option<PinMediaType>): set<Ptr> {
    if p.None? then {} else MediaBlocks(p.value.mediatype)
  }

  /**
   `gst_dshow_free_pin_mediatype`: drops the pin reference and frees the
   media type, clearing both fields, but leaves the record's own block alone.
   */
  function FreePinMediaType(pt: Option<PinMediaType>, env: Env): (r: Outcome<Option<PinMediaType>>)
    ensures pt.None? ==> r == Outcome(None, env)
    ensures pt.Some? ==> r.value == Some(pt.value.(capturePin := None, mediatype := None))
    ensures r.env.live == env.live - PinBlocks(pt)
    ensures forall h: Handle :: Count(r.env.refs, h) == Count(env.refs, h) - PinHolds(pt, h)
  {
    match pt
    case None => Outcome(None, env)
    case Some(p) =>
      var env1 := if p.capturePin.Some? then ReleaseOpt(env, p.capturePin) else env;
      var env2 := if p.mediatype.Some? then FreeMediaType(p.mediatype, env1).env else env1;
      Outcome(Some(p.(capturePin := None, mediatype := None)), env2)
  }

  /** What `IAMStreamConfig::GetStreamCaps` reported for the requested index. */
  datatype StreamCapsReply = StreamCapsReply(
    succeeded: bool,
    mediatype: Option<AmMediaType>,
    vscc: StreamConfigCaps)

  predicate CapsUsable(reply: StreamCapsReply) {
    reply.succeeded && reply.mediatype.Some?
  }

  /**
   `gst_dshow_new_pin_mediatype`. `cell` is the block `g_new0` hands out; the
   index the caller passes only selects which reply `GetStreamCaps` gives.
   */
  function NewPinMediaType(pin: Handle, reply: StreamCapsReply, cell: Ptr, env: Env): (r: Outcome<Option<PinMediaType>>)
    requires cell !in env.live
    requires cell !in MediaBlocks(reply.mediatype)
    ensures r.value.Some? <==> CapsUsable(reply)
    ensures !CapsUsable(reply) ==>
              && r.env.live == env.live + {cell} - MediaBlocks(reply.mediatype)
              && cell in r.env.live
              && forall h: Handle :: Count(r.env.refs, h) == Count(env.refs, h) - MediaHolds(reply.mediatype, h)
    ensures CapsUsable(reply) ==>
              && r.value.value.cell == cell
              && r.value.value.capturePin == Some(pin)
              && r.value.value.mediatype == reply.mediatype
              && r.value.value.vscc == reply.vscc
              && r.env.live == env.live + {cell}
              && forall h: Handle :: Count(r.env.refs, h) == Count(env.refs, h) + (if h == pin then 1 else 0)
  {
    var record := PinMediaType(cell, None, reply.mediatype, reply.vscc, 0, 0, 0, 0, 0);
    var env1 := env.(live := env.live + {cell});
    if !reply.succeeded || reply.mediatype.None? then
      Outcome(None, FreePinMediaType(Some(record), env1).env)
    else
      Outcome(Some(record.(capturePin := Some(pin))), env1.(refs := AddRef(env1.refs, pin)))
  }

  /**
   A record that `gst_dshow_new_pin_mediatype` created and that
   `gst_dshow_free_pin_mediatype` later frees leaves the pin's count where it
   started; the only net change to the ledger is the media type's `pUnk`
   release, and the record's own block is still live.
   */
  lemma NewThenFreeBalancesPin(pin: Handle, reply: StreamCapsReply, cell: Ptr, env: Env)
    requires cell !in env.live
    requires cell !in MediaBlocks(reply.mediatype)
    requires CapsUsable(reply)
    ensures var made := NewPinMediaType(pin, reply, cell, env);
            var freed := FreePinMediaType(made.value, made.env);
            && (forall h: Handle :: Count(freed.env.refs, h) == Count(env.refs, h) - MediaHolds(reply.mediatype, h))
            && freed.env.live == env.live + {cell} - MediaBlocks(reply.mediatype)
            && cell in freed.env.live
  {
  }

  /** A pin record after `gst_dshow_free_pin_mediatype` has cleared it in place. */
  function Cleared(p: PinMediaType): PinMediaType {
    p.(capturePin := None, mediatype := None)
  }

  /**
   A node of the `GList` of pin records: `data` is the `cell` of the record
   it points to, or `None` for NULL. The records themselves live in a store
   keyed by `cell`, so a record listed twice is one record.
   */
  datatype ListNode = ListNode(node: Ptr, data: Option<Ptr>)

  /** The records the first `n` nodes point to. */
  function SeenCells(list: seq<ListNode>, n: nat): set<Ptr>
    requires n <= |list|
  {
    if n == 0 then {}
    else SeenCells(list, n - 1) + (if list[n - 1].data.Some? then {list[n - 1].data.value} else {})
  }

  /** The records the first `n` nodes point to, each once, in order of first appearance. */
  function DistinctCells(list: seq<ListNode>, n: nat): (cells: seq<Ptr>)
    requires n <= |list|
    ensures forall c :: c in cells <==> c in SeenCells(list, n)
    ensures forall i, j :: 0 <= i < j < |cells| ==> cells[i] != cells[j]
  {
    if n == 0 then []
    else
      var rest := DistinctCells(list, n - 1);
      var d := list[n - 1].data;
      if d.Some? && d.value !in rest then rest + [d.value] else rest
  }

  /** The record stored at `c`, if any. */
  function Stored(records: map<Ptr, PinMediaType>, c: Ptr): Option<PinMediaType> {
    if c in records then Some(records[c]) else None
  }

  /** References the records `cells` name hold on `h`, in total. */
  function StoreHolds(cells: seq<Ptr>, records: map<Ptr, PinMediaType>, h: Handle): nat {
    if cells == [] then 0
    else StoreHolds(cells[..|cells| - 1], records, h) + PinHolds(Stored(records, cells[|cells| - 1]), h)
  }

  /** Blocks freed on behalf of the records `cells` name. */
  function StoreBlocks(cells: seq<Ptr>, records: map<Ptr, PinMediaType>): set<Ptr> {
    if cells == [] then {}
    else StoreBlocks(cells[..|cells| - 1], records) + PinBlocks(Stored(records, cells[|cells| - 1]))
  }

  /** The list's own nodes, which `g_list_free` frees. */
  function ListNodes(list: seq<ListNode>): set<Ptr> {
    set i | 0 <= i < |list| :: list[i].node
  }

  /** Holdings and blocks of one more record add to the totals. */
  lemma StoreAppend(cells: seq<Ptr>, c: Ptr, records: map<Ptr, PinMediaType>)
    ensures forall h: Handle :: StoreHolds(cells + [c], records, h) == StoreHolds(cells, records, h) + PinHolds(Stored(records, c), h)
    ensures StoreBlocks(cells + [c], records) == StoreBlocks(cells, records) + PinBlocks(Stored(records, c))
  {
    assert (cells + [c])[..|cells|] == cells;
  }

  /** The state of `gst_dshow_free_pins_mediatypes` after the first `i` nodes. */
  ghost predicate FreedUpTo(list: seq<ListNode>, records: map<Ptr, PinMediaType>, env: Env,
                            recs: map<Ptr, PinMediaType>, r: Env, i: nat)
    requires i <= |list|
  {
    && recs.Keys == records.Keys
    && (forall c :: c in records ==>
          recs[c] == (if c in SeenCells(list, i) then Cleared(records[c]) else records[c]))
    && (forall h: Handle :: Count(r.refs, h) == Count(env.refs, h) - StoreHolds(DistinctCells(list, i), records, h))
    && r.live == env.live - StoreBlocks(DistinctCells(list, i), records)
  }

  /** One iteration: free, in place, the record a node points to; NULL data is skipped. */
  function FreeNodeData(n: ListNode, recs: map<Ptr, PinMediaType>, env: Env): (r: (map<Ptr, PinMediaType>, Env))
    requires n.data.Some? ==> n.data.value in recs
    ensures r.0.Keys == recs.Keys
  {
    if n.data.None? then (recs, env)
    else
      var freed := FreePinMediaType(Some(recs[n.data.value]), env);
      (recs[n.data.value := freed.value.value], freed.env)
  }

  /** A record seen before is already cleared, so visiting it again changes nothing. */
  lemma FreeNodeStep(list: seq<ListNode>, records: map<Ptr, PinMediaType>, env: Env,
                     recs: map<Ptr, PinMediaType>, r: Env, i: nat)
    requires i < |list|
    requires list[i].data.Some? ==> list[i].data.value in records
    requires FreedUpTo(list, records, env, recs, r, i)
    ensures list[i].data.Some? ==> list[i].data.value in recs
    ensures var next := FreeNodeData(list[i], recs, r);
            FreedUpTo(list, records, env, next.0, next.1, i + 1)
  {
    if list[i].data.Some? {
      var c := list[i].data.value;
      if c !in DistinctCells(list, i) {
        StoreAppend(DistinctCells(list, i), c, records);
      }
    }
  }

  /**
   A list whose nodes all point to the same record `c` names that record
   once, so freeing the list gives up its references once.
   */
  lemma {:induction false} RepeatedRecordCountedOnce(list: seq<ListNode>, c: Ptr, n: nat)
    requires 0 < n <= |list|
    requires forall i :: 0 <= i < n ==> list[i].data == Some(c)
    ensures DistinctCells(list, n) == [c]
    ensures forall records: map<Ptr, PinMediaType>, h: Handle ::
              StoreHolds(DistinctCells(list, n), records, h) == PinHolds(Stored(records, c), h)
  {
    if n > 1 {
      RepeatedRecordCountedOnce(list, c, n - 1);
    }
    forall records: map<Ptr, PinMediaType>, h: Handle
      ensures StoreHolds([c], records, h) == PinHolds(Stored(records, c), h)
    {
      assert [c][..0] == [];
    }
  }

  /**
   `gst_dshow_free_pins_mediatypes`: frees every record in list order, then
   the list. Each record is cleared in place, so a record listed twice gives
   up its references and blocks only once. The records' own blocks are not
   freed.
   */
  method FreePinsMediaTypes(list: seq<ListNode>, records: map<Ptr, PinMediaType>, env: Env)
    returns (recordsOut: map<Ptr, PinMediaType>, r: Env)
    requires forall i :: 0 <= i < |list| && list[i].data.Some? ==> list[i].data.value in records
    ensures recordsOut.Keys == records.Keys
    ensures forall c :: c in records ==>
              recordsOut[c] == (if c in SeenCells(list, |list|) then Cleared(records[c]) else records[c])
    ensures forall h: Handle :: Count(r.refs, h) == Count(env.refs, h) - StoreHolds(DistinctCells(list, |list|), records, h)
    ensures r.live == env.live - StoreBlocks(DistinctCells(list, |list|), records) - ListNodes(list)
  {
    recordsOut, r := records, env;
    var i := 0;
    while i < |list|
      invariant 0 <= i <= |list|
      invariant FreedUpTo(list, records, env, recordsOut, r, i)
    {
      FreeNodeStep(list, records, env, recordsOut, r, i);
      var next := FreeNodeData(list[i], recordsOut, r);
      recordsOut, r := next.0, next.1;
      i := i + 1;
    }
    r := r.(live := r.live - ListNodes(list));
  }
}
