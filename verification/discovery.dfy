/**
 The three enumeration loops of the helpers: picking a pin of a filter,
 picking a registered filter for a media-type pair, and resolving a capture
 device's friendly name to its display name. Each COM enumerator is the
 finite sequence of what its `Next` hands out, in order; a failed
 enumerator set-up is `None`. Every object `Next` hands out carries one
 reference, which the loop must release.
 */
module Discovery {
  import opened Wrappers
  import opened Ledger
  import opened Ascii

  /** The candidates of an enumeration; one that could not be set up yields nothing. */
  function Listed<T>(e: Option<seq<T>>): seq<T> {
    if e.Some? then e.value else []
  }

  // ---------------------------------------------------------------- pins

  datatype PinDirection = PinInput | PinOutput

  /** A pin from `IEnumPins::Next`; `direction` is `None` when `QueryDirection` fails. */
  datatype PinCandidate = PinCandidate(pin: Handle, direction: Option<PinDirection>)

  predicate PinMatches(c: PinCandidate, dir: PinDirection) {
    c.direction == Some(dir)
  }

  ghost predicate FirstPinAt(ps: seq<PinCandidate>, dir: PinDirection, i: int) {
    0 <= i < |ps| && PinMatches(ps[i], dir) && forall j :: 0 <= j < i ==> !PinMatches(ps[j], dir)
  }

  /**
   `gst_dshow_get_pin_from_filter`. `pins` is `None` when `EnumPins` fails.
   The pin found keeps the reference `Next` gave it; every pin inspected
   before it is released.
   */
  method GetPinFromFilter(pins: Option<seq<PinCandidate>>, dir: PinDirection, refs: Refs)
    returns (found: bool, pin: Option<Handle>, refsOut: Refs)
    ensures found <==> exists i :: 0 <= i < |Listed(pins)| && PinMatches(Listed(pins)[i], dir)
    ensures found <==> pin.Some?
    ensures found ==> exists i :: FirstPinAt(Listed(pins), dir, i) && pin == Some(Listed(pins)[i].pin)
    ensures forall h: Handle :: Count(refsOut, h) == Count(refs, h) + (if pin == Some(h) then 1 else 0)
  {
    found, pin, refsOut := false, None, refs;
    if pins.None? {
      assert Listed(pins) == [];
      return;
    }
    var ps := pins.value;
    assert Listed(pins) == ps;
    var i := 0;
    while i < |ps|
      invariant 0 <= i <= |ps|
      invariant forall j :: 0 <= j < i ==> !PinMatches(ps[j], dir)
      invariant forall h: Handle :: Count(refsOut, h) == Count(refs, h)
    {
      refsOut := AddRef(refsOut, ps[i].pin);
      if PinMatches(ps[i], dir) {
        found, pin := true, Some(ps[i].pin);
        assert FirstPinAt(ps, dir, i);
        break;
      }
      refsOut := Release(refsOut, ps[i].pin);
      i := i + 1;
    }
  }

  // ---------------------------------------------------------------- monikers

  /**
   A moniker from `IEnumMoniker::Next`: `friendlyName` is what its property
   bag holds under "FriendlyName" (`None` when the bag or the read fails),
   `displayName` what `GetDisplayName` returns (`None` on failure), and
   `filter` the object `BindToObject` creates (`None` on failure).
   */
  datatype Moniker = Moniker(
    moniker: Handle,
    friendlyName: Option<string>,
    displayName: Option<string>,
    filter: Option<Handle>)

  predicate Binds(m: Moniker) {
    m.filter.Some?
  }

  /** Bound, and the upper-cased friendly name contains the upper-cased preference. */
  ghost predicate IsPreferred(m: Moniker, preferred: string) {
    Binds(m) && m.friendlyName.Some? && Occurs(Upper(preferred), Upper(m.friendlyName.value))
  }

  /** After processing `m`, `gst_dshow_find_filter` sets its exit flag. */
  ghost predicate StopsAt(m: Moniker, preferred: Option<string>, wantFilter: bool) {
    Binds(m) && (!wantFilter || preferred.None? || IsPreferred(m, preferred.value))
  }

  ghost predicate FirstBoundAt(ms: seq<Moniker>, i: int) {
    0 <= i < |ms| && Binds(ms[i]) && forall j :: 0 <= j < i ==> !Binds(ms[j])
  }

  ghost predicate LastBoundAt(ms: seq<Moniker>, i: int) {
    0 <= i < |ms| && Binds(ms[i]) && forall j :: i < j < |ms| ==> !Binds(ms[j])
  }

  ghost predicate FirstPreferredAt(ms: seq<Moniker>, preferred: string, i: int) {
    0 <= i < |ms| && IsPreferred(ms[i], preferred) && forall j :: 0 <= j < i ==> !IsPreferred(ms[j], preferred)
  }

  /** The filter of the last bound moniker among the first `n`. */
  function LastBound(ms: seq<Moniker>, n: nat): Option<Handle>
    requires n <= |ms|
  {
    if n == 0 then None
    else if Binds(ms[n - 1]) then ms[n - 1].filter
    else LastBound(ms, n - 1)
  }

  lemma {:induction false} LastBoundIsLast(ms: seq<Moniker>, n: nat)
    requires n <= |ms|
    ensures LastBound(ms, n).Some? <==> exists j :: 0 <= j < n && Binds(ms[j])
    ensures LastBound(ms, n).Some? ==>
              exists k :: 0 <= k < n && Binds(ms[k]) && LastBound(ms, n) == ms[k].filter
                          && forall j :: k < j < n ==> !Binds(ms[j])
  {
    if n > 0 && !Binds(ms[n - 1]) {
      LastBoundIsLast(ms, n - 1);
    }
  }

  /**
   The moniker `gst_dshow_find_filter` fetches after its exit flag is set:
   the loop condition calls `Next` before testing the flag, and that moniker
   is never released.
   */
  ghost function LeakedFilterMoniker(ms: seq<Moniker>, preferred: Option<string>, wantFilter: bool, i: nat): Option<Handle>
    decreases |ms| - i
  {
    if i + 1 >= |ms| then None
    else if StopsAt(ms[i], preferred, wantFilter) then Some(ms[i + 1].moniker)
    else LeakedFilterMoniker(ms, preferred, wantFilter, i + 1)
  }

  /**
   The leaked moniker is the one right after the first moniker that sets the
   exit flag, and there is none when that moniker is the last one.
   */
  lemma {:induction false} FilterLeakFollowsFirstStop(ms: seq<Moniker>, preferred: Option<string>, wantFilter: bool, i: nat, k: nat)
    requires i <= k < |ms|
    requires StopsAt(ms[k], preferred, wantFilter)
    requires forall j :: i <= j < k ==> !StopsAt(ms[j], preferred, wantFilter)
    ensures LeakedFilterMoniker(ms, preferred, wantFilter, i) == (if k + 1 < |ms| then Some(ms[k + 1].moniker) else None)
    decreases k - i
  {
    if i < k {
      FilterLeakFollowsFirstStop(ms, preferred, wantFilter, i + 1, k);
    }
  }

  /** When no moniker sets the exit flag, enumeration runs out and nothing leaks. */
  lemma {:induction false} FilterNoStopNoLeak(ms: seq<Moniker>, preferred: Option<string>, wantFilter: bool, i: nat)
    requires i <= |ms|
    requires forall j :: i <= j < |ms| ==> !StopsAt(ms[j], preferred, wantFilter)
    ensures LeakedFilterMoniker(ms, preferred, wantFilter, i) == None
    decreases |ms| - i
  {
    if i + 1 < |ms| {
      FilterNoStopNoLeak(ms, preferred, wantFilter, i + 1);
    }
  }

  /** What `gst_dshow_find_filter` carries from one moniker to the next. */
  datatype FilterScan = FilterScan(ret: bool, filter: Option<Handle>, exit: bool, refs: Refs)

  /**
   The body of the `gst_dshow_find_filter` loop for one moniker, between the
   `Next` that hands it out and the `Release` that returns it. Binding gives
   a reference on the new filter; a held filter that is replaced is released.
   */
  function VisitMoniker(m: Moniker, preferred: Option<string>, wantFilter: bool, s: FilterScan): (r: FilterScan)
    ensures r.ret == (s.ret || Binds(m))
    ensures r.filter == (if wantFilter && Binds(m) then m.filter else s.filter)
    ensures r.exit == (s.exit || StopsAt(m, preferred, wantFilter))
    ensures forall h: Handle :: Count(r.refs, h) - (if r.filter == Some(h) then 1 else 0)
                                == Count(s.refs, h) - (if s.filter == Some(h) then 1 else 0)
  {
    if m.filter.None? then s
    else
      var temp := m.filter.value;
      var refs1 := AddRef(s.refs, temp);
      var (filter2, refs2, preferredHit) :=
        if wantFilter then
          var refsHeld := if s.filter.Some? then Release(refs1, s.filter.value) else refs1;
          var hit := preferred.Some? && m.friendlyName.Some? &&
                     Contains(Upper(m.friendlyName.value), Upper(preferred.value));
          (Some(temp), AddRef(refsHeld, temp), hit)
        else (s.filter, refs1, false);
      var exit := s.exit || preferredHit || !wantFilter || preferred.None?;
      FilterScan(true, filter2, exit, Release(refs2, temp))
  }

  /**
   `gst_dshow_find_filter`. `monikers` is `None` when creating the filter
   mapper or `EnumMatchingFilters` fails; `wantFilter` is false when the
   caller passes a NULL `filter`. The returned filter carries one reference
   for the caller; the loop keeps at most one extra reference, on the filter
   it currently holds.
   */
  method FindFilter(monikers: Option<seq<Moniker>>, preferred: Option<string>, wantFilter: bool, refs: Refs)
    returns (ret: bool, filter: Option<Handle>, refsOut: Refs)
    ensures ret <==> exists i :: 0 <= i < |Listed(monikers)| && Binds(Listed(monikers)[i])
    ensures !wantFilter ==> filter.None?
    ensures wantFilter ==> (filter.Some? <==> ret)
    ensures wantFilter && preferred.None? && ret ==>
              exists i :: FirstBoundAt(Listed(monikers), i) && filter == Listed(monikers)[i].filter
    ensures wantFilter && preferred.Some? && (exists i :: 0 <= i < |Listed(monikers)| && IsPreferred(Listed(monikers)[i], preferred.value)) ==>
              exists i :: FirstPreferredAt(Listed(monikers), preferred.value, i) && filter == Listed(monikers)[i].filter
    ensures wantFilter && preferred.Some? && ret && (forall i :: 0 <= i < |Listed(monikers)| ==> !IsPreferred(Listed(monikers)[i], preferred.value)) ==>
              exists i :: LastBoundAt(Listed(monikers), i) && filter == Listed(monikers)[i].filter
    ensures forall h: Handle :: Count(refsOut, h) == Count(refs, h)
              + (if filter == Some(h) then 1 else 0)
              + (if LeakedFilterMoniker(Listed(monikers), preferred, wantFilter, 0) == Some(h) then 1 else 0)
  {
    if monikers.None? {
      assert Listed(monikers) == [];
      return false, None, refs;
    }
    var ms := monikers.value;
    assert Listed(monikers) == ms;
    var s := FilterScan(false, None, false, refs);
    var i := 0;
    while true
      invariant 0 <= i <= |ms|
      invariant !s.exit ==> forall j :: 0 <= j < i ==> !StopsAt(ms[j], preferred, wantFilter)
      invariant s.exit ==> 0 < i && StopsAt(ms[i - 1], preferred, wantFilter)
      invariant s.exit ==> forall j :: 0 <= j < i - 1 ==> !StopsAt(ms[j], preferred, wantFilter)
      invariant s.ret <==> exists j :: 0 <= j < i && Binds(ms[j])
      invariant !wantFilter ==> s.filter.None?
      invariant wantFilter ==> s.filter == LastBound(ms, i)
      invariant forall h: Handle :: Count(s.refs, h) == Count(refs, h) + (if s.filter == Some(h) then 1 else 0)
      invariant !s.exit ==> LeakedFilterMoniker(ms, preferred, wantFilter, 0) == LeakedFilterMoniker(ms, preferred, wantFilter, i)
      invariant s.exit ==> LeakedFilterMoniker(ms, preferred, wantFilter, 0) == (if i < |ms| then Some(ms[i].moniker) else None)
      decreases |ms| - i
    {
      if i == |ms| {
        break;
      }
      s := s.(refs := AddRef(s.refs, ms[i].moniker));
      if s.exit {
        break;
      }
      s := VisitMoniker(ms[i], preferred, wantFilter, s);
      s := s.(refs := Release(s.refs, ms[i].moniker));
      i := i + 1;
    }
    ret, filter, refsOut := s.ret, s.filter, s.refs;
    FindFilterSelects(ms, preferred, wantFilter, i, s.exit, filter);
  }

  /** What the state at loop exit says about the filter `gst_dshow_find_filter` returns. */
  lemma FindFilterSelects(ms: seq<Moniker>, preferred: Option<string>, wantFilter: bool, i: nat, exit: bool, filter: Option<Handle>)
    requires i <= |ms|
    requires !exit ==> i == |ms| && forall j :: 0 <= j < i ==> !StopsAt(ms[j], preferred, wantFilter)
    requires exit ==> 0 < i && StopsAt(ms[i - 1], preferred, wantFilter)
    requires exit ==> forall j :: 0 <= j < i - 1 ==> !StopsAt(ms[j], preferred, wantFilter)
    requires wantFilter ==> filter == LastBound(ms, i)
    ensures wantFilter ==> (filter.Some? <==> exists j :: 0 <= j < i && Binds(ms[j]))
    ensures wantFilter && preferred.None? && filter.Some? ==>
              exists k :: FirstBoundAt(ms, k) && filter == ms[k].filter
    ensures wantFilter && preferred.Some? && (exists k :: 0 <= k < |ms| && IsPreferred(ms[k], preferred.value)) ==>
              exists k :: FirstPreferredAt(ms, preferred.value, k) && filter == ms[k].filter
    ensures wantFilter && preferred.Some? && filter.Some? && (forall k :: 0 <= k < |ms| ==> !IsPreferred(ms[k], preferred.value)) ==>
              exists k :: LastBoundAt(ms, k) && filter == ms[k].filter
  {
    LastBoundIsLast(ms, i);
    if exit {
      assert wantFilter && preferred.None? ==> FirstBoundAt(ms, i - 1);
      assert wantFilter && preferred.Some? ==> FirstPreferredAt(ms, preferred.value, i - 1);
    }
  }

  // ---------------------------------------------------------------- devices

  predicate Readable(d: Moniker) {
    d.friendlyName.Some?
  }

  /** The friendly name equals `target` up to ASCII case. */
  predicate NameMatches(d: Moniker, target: string) {
    d.friendlyName.Some? && Upper(d.friendlyName.value) == Upper(target)
  }

  ghost predicate FirstReadableAt(ds: seq<Moniker>, i: int) {
    0 <= i < |ds| && Readable(ds[i]) && forall j :: 0 <= j < i ==> !Readable(ds[j])
  }

  ghost predicate FirstNameMatchAt(ds: seq<Moniker>, target: string, i: int) {
    0 <= i < |ds| && NameMatches(ds[i], target) && forall j :: 0 <= j < i ==> !NameMatches(ds[j], target)
  }

  /**
   The moniker `gst_dshow_getdevice_from_devicename` fetches after the match
   is found, before testing its found flag; it is never released.
   */
  ghost function LeakedDeviceFrom(ds: seq<Moniker>, target: string, i: nat): Option<Handle>
    decreases |ds| - i
  {
    if i + 1 >= |ds| then None
    else if NameMatches(ds[i], target) then Some(ds[i + 1].moniker)
    else LeakedDeviceFrom(ds, target, i + 1)
  }

  /** The leaked device moniker is the one right after the first device whose name matches. */
  lemma {:induction false} DeviceLeakFollowsFirstMatch(ds: seq<Moniker>, target: string, i: nat, k: nat)
    requires i <= k < |ds|
    requires NameMatches(ds[k], target)
    requires forall j :: i <= j < k ==> !NameMatches(ds[j], target)
    ensures LeakedDeviceFrom(ds, target, i) == (if k + 1 < |ds| then Some(ds[k + 1].moniker) else None)
    decreases k - i
  {
    if i < k {
      DeviceLeakFollowsFirstMatch(ds, target, i + 1, k);
    }
  }

  ghost function LeakedDeviceMoniker(ds: seq<Moniker>, target: Option<string>): Option<Handle> {
    if target.Some? then LeakedDeviceFrom(ds, target.value, 0) else None
  }

  /** Devices that cannot match `target` are passed over without changing what leaks. */
  lemma {:induction false} SkipUnmatchedDevices(ds: seq<Moniker>, target: string, i: nat)
    requires i <= |ds|
    requires forall j :: 0 <= j < i ==> !NameMatches(ds[j], target)
    ensures LeakedDeviceFrom(ds, target, 0) == LeakedDeviceFrom(ds, target, i)
  {
    if i > 0 {
      SkipUnmatchedDevices(ds, target, i - 1);
    }
  }

  /**
   `gst_dshow_getdevice_from_devicename`. `devices` is `None` when the system
   device enumerator or its class enumerator cannot be created. `deviceName`
   is the caller's in/out name; the result is the display name of the first
   device whose friendly name matches it.
   */
  method GetDeviceFromDeviceName(devices: Option<seq<Moniker>>, deviceName: Option<string>, refs: Refs)
    returns (ret: Option<string>, name: Option<string>, refsOut: Refs)
    ensures deviceName.Some? ==> name == deviceName
    ensures deviceName.None? ==>
              (name.None? <==> forall i :: 0 <= i < |Listed(devices)| ==> !Readable(Listed(devices)[i]))
    ensures deviceName.None? && name.Some? ==>
              exists i :: FirstReadableAt(Listed(devices), i) && name == Listed(devices)[i].friendlyName
                          && ret == Listed(devices)[i].displayName
    ensures name.Some? && (exists i :: 0 <= i < |Listed(devices)| && NameMatches(Listed(devices)[i], name.value)) ==>
              exists i :: FirstNameMatchAt(Listed(devices), name.value, i) && ret == Listed(devices)[i].displayName
    ensures (name.None? || forall i :: 0 <= i < |Listed(devices)| ==> !NameMatches(Listed(devices)[i], name.value)) ==>
              ret.None?
    ensures forall h: Handle :: Count(refsOut, h) == Count(refs, h)
              + (if LeakedDeviceMoniker(Listed(devices), name) == Some(h) then 1 else 0)
  {
    ret, name, refsOut := None, deviceName, refs;
    if devices.None? {
      assert Listed(devices) == [];
      return;
    }
    var ds := devices.value;
    assert Listed(devices) == ds;
    var found := false;
    var i := 0;
    while true
      invariant 0 <= i <= |ds|
      invariant deviceName.Some? ==> name == deviceName
      invariant name.None? ==> forall j :: 0 <= j < i ==> !Readable(ds[j])
      invariant deviceName.None? && name.Some? ==>
                  exists j :: FirstReadableAt(ds, j) && j < i && name == ds[j].friendlyName
      invariant !found ==> ret.None?
      invariant !found && name.Some? ==> forall j :: 0 <= j < i ==> !NameMatches(ds[j], name.value)
      invariant found ==> name.Some? && 0 < i && FirstNameMatchAt(ds, name.value, i - 1) && ret == ds[i - 1].displayName
      invariant !found && name.Some? ==> LeakedDeviceFrom(ds, name.value, 0) == LeakedDeviceFrom(ds, name.value, i)
      invariant found ==> LeakedDeviceFrom(ds, name.value, 0) == (if i < |ds| then Some(ds[i].moniker) else None)
      invariant forall h: Handle :: Count(refsOut, h) == Count(refs, h)
      decreases |ds| - i
    {
      if i == |ds| {
        break;
      }
      var d := ds[i];
      refsOut := AddRef(refsOut, d.moniker);
      if found {
        break;
      }
      if d.friendlyName.Some? {
        var friendly := d.friendlyName.value;
        if name.None? {
          name := Some(friendly);
          assert FirstReadableAt(ds, i);
          SkipUnmatchedDevices(ds, friendly, i);
        }
        if StrICmp(name.value, friendly) == 0 {
          ret := d.displayName;
          found := true;
        }
      }
      refsOut := Release(refsOut, d.moniker);
      i := i + 1;
    }
    if deviceName.None? && name.Some? {
      ghost var k :| FirstReadableAt(ds, k) && k < i && name == ds[k].friendlyName;
      assert FirstNameMatchAt(ds, name.value, k);
    }
  }
}
