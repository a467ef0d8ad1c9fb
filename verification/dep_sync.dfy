/** `sync_dep_virtual_server_devices`: delivered operations applied to device records,
    where the operation with the latest date wins. */
module DepSync {
  import opened Wrappers
  import opened DepClient

  // ----- records -----

  datatype Device = Device(
    server: nat,
    opType: Option<string>, opDate: Option<int>,
    assignedBy: string, profileStatus: string, profileUuid: Option<string>,
    assignedDate: int, assignTime: Option<int>, pushTime: Option<int>)

  const PROFILE_STATUS_EMPTY := "empty"
  const OP_TYPE_DELETED := "deleted"

  type Devices = map<string, Device>

  /** An operation without its type or date, or null for a column that cannot be null. */
  datatype SyncError = BadOperation | NotNullViolation

  // ----- one operation -----

  /** An attribute that keeps its value when it is not delivered. */
  function Keep<T>(a: Attr<T>, value: T): T {
    match a
    case Given(v) => v
    case _ => value
  }

  function KeepNullable<T>(a: Attr<T>, value: Option<T>): Option<T> {
    match a
    case Given(v) => Some(v)
    case Null => None
    case Absent => value
  }

  /** Null for a column that cannot be null. */
  predicate Violates(d: Delivered) {
    d.assignedBy.Null? || d.profileStatus.Null? || d.assignedDate.None?
  }

  /** The record after `update_or_create`; only a sync sets the last operation. */
  function Updated(server: nat, fetch: bool, stored: Option<Device>, d: Delivered): Device
    requires !Violates(d)
  {
    var before := if stored.Some? then stored.value
                  else Device(server, None, None, "", PROFILE_STATUS_EMPTY, None, d.assignedDate.value, None, None);
    Device(
      server,
      if fetch then before.opType else KeepNullable(d.opType, None), if fetch then before.opDate else d.opDate,
      Keep(d.assignedBy, before.assignedBy), Keep(d.profileStatus, before.profileStatus),
      KeepNullable(d.profileUuid, before.profileUuid),
      d.assignedDate.value, d.assignTime, d.pushTime)
  }

  /** A newer operation was applied already. */
  predicate Stalled(stored: Option<Device>, d: Delivered) {
    stored.Some? && stored.value.opDate.Some? && d.opDate.Some? && stored.value.opDate.value > d.opDate.value
  }

  function Step(server: nat, fetch: bool, stored: Option<Device>, d: Delivered): Result<Option<Device>, SyncError> {
    if !fetch && (d.opType.Absent? || d.opDate.None?) then Err(BadOperation)
    else if !fetch && Stalled(stored, d) then Ok(stored)
    else if Violates(d) then Err(NotNullViolation)
    else Ok(Some(Updated(server, fetch, stored, d)))
  }

  // ----- a batch -----

  function Get(devices: Devices, serial: string): Option<Device> {
    if serial in devices then Some(devices[serial]) else None
  }

  function Put(devices: Devices, serial: string, device: Option<Device>): Devices {
    if device.Some? then devices[serial := device.value] else devices
  }

  /** The records when the batch ends, or fails at one of its operations. */
  datatype Progress = Progress(devices: Devices, error: Option<SyncError>)

  function Apply(server: nat, fetch: bool, devices: Devices, d: Delivered): Progress {
    match Step(server, fetch, Get(devices, d.serialNumber), d)
    case Err(e) => Progress(devices, Some(e))
    case Ok(device) => Progress(Put(devices, d.serialNumber, device), None)
  }

  function ApplyAll(server: nat, fetch: bool, devices: Devices, batch: seq<Delivered>): Progress {
    if batch == [] then Progress(devices, None)
    else
      var front := ApplyAll(server, fetch, devices, batch[..|batch| - 1]);
      if front.error.Some? then front else Apply(server, fetch, front.devices, batch[|batch| - 1])
  }

  /** After a fetch, the other devices of the server are marked as deleted. */
  function MarkOthersDeleted(server: nat, devices: Devices, found: seq<string>): Devices {
    map serial | serial in devices ::
      if devices[serial].server == server && serial !in found then devices[serial].(opType := Some(OP_TYPE_DELETED))
      else devices[serial]
  }

  function Serials(batch: seq<Delivered>): (r: seq<string>)
    ensures |r| == |batch| && forall i | 0 <= i < |batch| :: r[i] == batch[i].serialNumber
  {
    if batch == [] then [] else Serials(batch[..|batch| - 1]) + [batch[|batch| - 1].serialNumber]
  }

  // ----- the loop -----

  class DepVirtualServer {
    const pk: nat
    var devices: Devices
    var syncCursor: Option<string>
    var lastSyncedAt: Option<int>

    constructor (pk: nat, devices: Devices, syncCursor: Option<string>)
      ensures this.pk == pk && this.devices == devices && this.syncCursor == syncCursor
    {
      this.pk, this.devices, this.syncCursor, lastSyncedAt := pk, devices, syncCursor, None;
    }

    /** The cursor is only saved once everything delivered was applied. */
    method SyncDevices(fetchPages: Pages, syncPages: Pages, forceFetch: bool, now: int,
        ghost n: nat) returns (error: Option<SyncError>)
      requires Drains(Service(fetchPages, syncPages, forceFetch, syncCursor), Start(forceFetch, syncCursor), n)
      modifies this
      ensures
        var fetch := Fetches(forceFetch, old(syncCursor));
        var pages, start := Service(fetchPages, syncPages, forceFetch, old(syncCursor)),
            Start(forceFetch, old(syncCursor));
        var batch := AllDevices(pages, start, n);
        var done := ApplyAll(pk, fetch, old(devices), batch);
        && error == done.error
        && if error.Some? then devices == done.devices && syncCursor == old(syncCursor) &&
            lastSyncedAt == old(lastSyncedAt)
           else
             && devices == (if fetch then MarkOthersDeleted(pk, done.devices, Serials(batch)) else done.devices)
             && syncCursor == LastCursor(pages, start, n)
             && lastSyncedAt == Some(now)
    {
      var fetch := Fetches(forceFetch, syncCursor);
      var listing := new CursorIterator(Service(fetchPages, syncPages, forceFetch, syncCursor),
          Start(forceFetch, syncCursor), n);
      var found;
      found, error := ApplyDelivered(fetch, listing);
      if error.Some? {
        return;
      }
      syncCursor := listing.cursor;
      lastSyncedAt := Some(now);
      if fetch {
        devices := MarkOthersDeleted(pk, devices, found);
      }
    }

    method ApplyOne(fetch: bool, d: Delivered) returns (error: Option<SyncError>)
      modifies this`devices
      ensures Progress(devices, error) == Apply(pk, fetch, old(devices), d)
    {
      if !fetch && (d.opType.Absent? || d.opDate.None?) {
        return Some(BadOperation);
      }
      var stored := Get(devices, d.serialNumber);
      if !fetch && Stalled(stored, d) {
        return None;
      }
      if Violates(d) {
        return Some(NotNullViolation);
      }
      devices := devices[d.serialNumber := Updated(pk, fetch, stored, d)];
      error := None;
    }

    /** The loop over the delivered devices. */
    method ApplyDelivered(fetch: bool, listing: CursorIterator) returns (found: seq<string>, error: Option<SyncError>)
      requires listing.Valid()
      modifies this`devices, listing
      ensures var batch, done := old(listing.remaining), ApplyAll(pk, fetch, old(devices), old(listing.remaining));
              && devices == done.devices && error == done.error
              && (error.None? ==> found == Serials(batch) && listing.cursor == old(listing.final))
    {
      ghost var batch, n := listing.remaining, 0;
      ghost var final, before := listing.final, devices;
      found := [];
      var device := listing.Next();
      AheadOf(batch, 0, batch, device, listing.remaining);
      while device.Some?
        invariant listing.Valid() && listing.final == final
        invariant Ahead(batch, n, device, listing.remaining)
        invariant device.None? ==> listing.cursor == final
        invariant Applied(pk, fetch, before, batch, n, devices, found)
        decreases |batch| - n
      {
        ghost var current := devices;
        error := ApplyOne(fetch, device.value);
        ghost var next := Progress(devices, error);
        Advanced(pk, fetch, before, batch, n, device.value, listing.remaining, current, found, next);
        if error.Some? {
          return;
        }
        found := found + [device.value.serialNumber];
        n := n + 1;
        ghost var rest := listing.remaining;
        device := listing.Next();
        AheadOf(batch, n, rest, device, listing.remaining);
      }
      AllApplied(pk, fetch, before, batch, n, devices, found);
      error := None;
    }
  }

  /** What is left of the batch after n devices: the one just taken, and the rest. */
  ghost predicate Ahead(batch: seq<Delivered>, n: nat, device: Option<Delivered>, rest: seq<Delivered>) {
    n <= |batch| && match device
                    case Some(d) => batch[n..] == [d] + rest
                    case None => n == |batch| && rest == []
  }

  lemma {:induction false} AheadOf(batch: seq<Delivered>, n: nat, before: seq<Delivered>, device: Option<Delivered>,
      rest: seq<Delivered>)
    requires n <= |batch| && batch[n..] == before
    requires match device case Some(d) => before == [d] + rest case None => before == [] && rest == []
    ensures Ahead(batch, n, device, rest)
  {
    assert |batch[n..]| == |batch| - n;
  }

  lemma {:induction false} TakeNext(batch: seq<Delivered>, n: nat, d: Delivered, rest: seq<Delivered>)
    requires Ahead(batch, n, Some(d), rest)
    ensures n < |batch| && batch[n] == d && batch[n + 1..] == rest
  {
    assert |batch[n..]| == |rest| + 1;
    assert batch[n] == batch[n..][0] && batch[n + 1..] == batch[n..][1..];
  }

  /** The first n operations are applied, and their devices found. */
  ghost predicate Applied(server: nat, fetch: bool, before: Devices, batch: seq<Delivered>, n: nat, devices: Devices,
      found: seq<string>)
    requires n <= |batch|
  {
    found == Serials(batch[..n]) && ApplyAll(server, fetch, before, batch[..n]) == Progress(devices, None)
  }

  lemma {:induction false} AllApplied(server: nat, fetch: bool, before: Devices, batch: seq<Delivered>, n: nat,
      devices: Devices, found: seq<string>)
    requires n == |batch| && Applied(server, fetch, before, batch, n, devices, found)
    ensures found == Serials(batch) && ApplyAll(server, fetch, before, batch) == Progress(devices, None)
  {
    assert batch[..n] == batch;
  }

  /** What one more operation makes of the loop's state. */
  lemma {:induction false} Advanced(server: nat, fetch: bool, before: Devices, batch: seq<Delivered>, n: nat,
      d: Delivered, rest: seq<Delivered>, devices: Devices, found: seq<string>, next: Progress)
    requires Ahead(batch, n, Some(d), rest) && Applied(server, fetch, before, batch, n, devices, found)
    requires next == Apply(server, fetch, devices, d)
    ensures n < |batch| && batch[n + 1..] == rest
    ensures if next.error.Some? then ApplyAll(server, fetch, before, batch) == next
            else Applied(server, fetch, before, batch, n + 1, next.devices, found + [d.serialNumber])
  {
    TakeNext(batch, n, d, rest);
    AppliedNext(server, fetch, before, batch, n, devices, next);
  }

  lemma {:induction false} AppliedNext(server: nat, fetch: bool, before: Devices, batch: seq<Delivered>, n: nat,
      devices: Devices, next: Progress)
    requires n < |batch| && ApplyAll(server, fetch, before, batch[..n]) == Progress(devices, None)
    requires next == Apply(server, fetch, devices, batch[n])
    ensures ApplyAll(server, fetch, before, batch[..n + 1]) == next
    ensures next.error.Some? ==> ApplyAll(server, fetch, before, batch) == next
    ensures Serials(batch[..n + 1]) == Serials(batch[..n]) + [batch[n].serialNumber]
  {
    assert batch[..n + 1][..n] == batch[..n];
    if next.error.Some? {
      FailsThere(server, fetch, before, batch, n + 1);
    }
  }

  function Fetches(forceFetch: bool, syncCursor: Option<string>): bool {
    forceFetch || syncCursor.None? || syncCursor.value == ""
  }

  function Service(fetchPages: Pages, syncPages: Pages, forceFetch: bool, syncCursor: Option<string>): Pages {
    if Fetches(forceFetch, syncCursor) then fetchPages else syncPages
  }

  function Start(forceFetch: bool, syncCursor: Option<string>): Option<string> {
    if Fetches(forceFetch, syncCursor) then None else syncCursor
  }

  lemma {:induction false} FailsThere(server: nat, fetch: bool, devices: Devices, batch: seq<Delivered>, n: nat)
    requires n <= |batch| && ApplyAll(server, fetch, devices, batch[..n]).error.Some?
    ensures ApplyAll(server, fetch, devices, batch) == ApplyAll(server, fetch, devices, batch[..n])
  {
    if n < |batch| {
      assert batch[..|batch| - 1][..n] == batch[..n];
      FailsThere(server, fetch, devices, batch[..|batch| - 1], n);
    } else {
      assert batch[..n] == batch;
    }
  }
}
