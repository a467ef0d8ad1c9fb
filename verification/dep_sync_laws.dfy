/** What a sync keeps: dates never go back, and a batch that was only partly recorded
    can be delivered again. */
module DepSyncLaws {
  import opened Wrappers
  import opened DepClient
  import opened DepSync

  // ----- one device at a time -----

  /** What a batch does to the record of one serial number. */
  function Single(server: nat, fetch: bool, stored: Option<Device>, batch: seq<Delivered>,
      serial: string): Result<Option<Device>, SyncError> {
    if batch == [] then Ok(stored)
    else
      var last := batch[|batch| - 1];
      var front :- Single(server, fetch, stored, batch[..|batch| - 1], serial);
      if last.serialNumber == serial then Step(server, fetch, front, last) else Ok(front)
  }

  /** As long as nothing fails, each record depends on the operations of its device only. */
  lemma {:induction false} AppliedSingly(server: nat, fetch: bool, devices: Devices, batch: seq<Delivered>,
      serial: string)
    requires ApplyAll(server, fetch, devices, batch).error.None?
    ensures Single(server, fetch, Get(devices, serial), batch, serial) ==
            Ok(Get(ApplyAll(server, fetch, devices, batch).devices, serial))
  {
    if batch != [] {
      AppliedSingly(server, fetch, devices, batch[..|batch| - 1], serial);
    }
  }

  lemma {:induction false} SinglesApply(server: nat, fetch: bool, devices: Devices, batch: seq<Delivered>)
    requires forall serial :: Single(server, fetch, Get(devices, serial), batch, serial).Ok?
    ensures ApplyAll(server, fetch, devices, batch).error.None?
  {
    if batch != [] {
      var front, last := batch[..|batch| - 1], batch[|batch| - 1];
      forall serial ensures Single(server, fetch, Get(devices, serial), front, serial).Ok? {
        assert Single(server, fetch, Get(devices, serial), batch, serial).Ok?;
      }
      SinglesApply(server, fetch, devices, front);
      AppliedSingly(server, fetch, devices, front, last.serialNumber);
      assert Single(server, fetch, Get(devices, last.serialNumber), batch, last.serialNumber).Ok?;
    }
  }

  // ----- dates -----

  function Later(a: Option<int>, b: Option<int>): Option<int> {
    if a.None? then b else if b.None? then a else if a.value >= b.value then a else b
  }

  /** The latest of a date and the dates delivered for a device. */
  function LatestDate(date: Option<int>, batch: seq<Delivered>, serial: string): (r: Option<int>)
    ensures date.Some? ==> r.Some? && date.value <= r.value
    ensures forall d | d in batch && d.serialNumber == serial && d.opDate.Some? :: r.Some? && d.opDate.value <= r.value
    ensures r == date || exists d :: d in batch && d.serialNumber == serial && d.opDate == r
  {
    if batch == [] then date
    else
      var front, last := LatestDate(date, batch[..|batch| - 1], serial), batch[|batch| - 1];
      assert forall d :: d in batch <==> d in batch[..|batch| - 1] || d == last;
      if last.serialNumber == serial then Later(front, last.opDate) else front
  }

  function DateOf(stored: Option<Device>): Option<int> {
    if stored.Some? then stored.value.opDate else None
  }

  lemma {:induction false} SingleDate(server: nat, stored: Option<Device>, batch: seq<Delivered>, serial: string)
    requires Single(server, false, stored, batch, serial).Ok?
    ensures DateOf(Single(server, false, stored, batch, serial).value) == LatestDate(DateOf(stored), batch, serial)
  {
    if batch != [] {
      SingleDate(server, stored, batch[..|batch| - 1], serial);
    }
  }

  /** In sync mode the date of every device ends at the latest of the stored and the
      delivered ones. */
  lemma {:induction false} SyncedDates(server: nat, devices: Devices, batch: seq<Delivered>, serial: string)
    requires ApplyAll(server, false, devices, batch).error.None?
    ensures DateOf(Get(ApplyAll(server, false, devices, batch).devices, serial)) ==
            LatestDate(DateOf(Get(devices, serial)), batch, serial)
  {
    AppliedSingly(server, false, devices, batch, serial);
    SingleDate(server, Get(devices, serial), batch, serial);
  }

  /** Not even a sync that fails takes a date back, or forgets a device. */
  lemma {:induction false} DatesNeverGoBack(server: nat, fetch: bool, devices: Devices, batch: seq<Delivered>,
      serial: string)
    requires serial in devices
    ensures var after := ApplyAll(server, fetch, devices, batch).devices;
            && serial in after
            && Later(devices[serial].opDate, after[serial].opDate) == after[serial].opDate
  {
    if batch != [] {
      DatesNeverGoBack(server, fetch, devices, batch[..|batch| - 1], serial);
    }
  }

  // ----- replaying -----

  lemma {:induction false} StepAgain(server: nat, fetch: bool, stored: Option<Device>, d: Delivered)
    requires Step(server, fetch, stored, d).Ok?
    ensures Step(server, fetch, Step(server, fetch, stored, d).value, d) == Step(server, fetch, stored, d)
  {
  }

  /** Nothing in a batch applies to a record that is newer. */
  lemma {:induction false} AllStalled(server: nat, stored: Option<Device>, other: Option<Device>,
      batch: seq<Delivered>, serial: string)
    requires Single(server, false, other, batch, serial).Ok?
    requires forall d | d in batch && d.serialNumber == serial :: d.opDate.Some? ==> Stalled(stored, d)
    ensures Single(server, false, stored, batch, serial) == Ok(stored)
  {
    if batch != [] {
      var front, last := batch[..|batch| - 1], batch[|batch| - 1];
      assert batch == front + [last];
      AllStalled(server, stored, other, front, serial);
    }
  }

  /** A record that does not exist, or in a sync has no date, was not in the batch. */
  lemma {:induction false} NotInBatch(server: nat, fetch: bool, stored: Option<Device>, batch: seq<Delivered>,
      serial: string)
    requires Single(server, fetch, stored, batch, serial).Ok?
    requires var r := Single(server, fetch, stored, batch, serial).value; r.None? || (!fetch && r.value.opDate.None?)
    ensures forall any :: Single(server, fetch, any, batch, serial) == Ok(any)
  {
    if batch != [] {
      NotInBatch(server, fetch, stored, batch[..|batch| - 1], serial);
    }
  }

  /** Records that `d` makes equal, in which the same operations are stalled. */
  ghost predicate Alike(server: nat, fetch: bool, d: Delivered, a: Option<Device>, b: Option<Device>) {
    && !Violates(d)
    && a.Some? && b.Some?
    && (fetch || a.value.opDate == b.value.opDate)
    && Updated(server, fetch, a, d) == Updated(server, fetch, b, d)
  }

  lemma {:induction false} AlikeAfter(server: nat, fetch: bool, d: Delivered, a: Option<Device>, b: Option<Device>,
      batch: seq<Delivered>, serial: string)
    requires Alike(server, fetch, d, a, b) && Single(server, fetch, a, batch, serial).Ok?
    ensures Single(server, fetch, b, batch, serial).Ok?
    ensures Alike(server, fetch, d, Single(server, fetch, a, batch, serial).value,
            Single(server, fetch, b, batch, serial).value)
  {
    if batch != [] {
      AlikeAfter(server, fetch, d, a, b, batch[..|batch| - 1], serial);
    }
  }

  /** A batch delivered a second time changes nothing for a device. */
  lemma {:induction false} SingleAgain(server: nat, fetch: bool, stored: Option<Device>, batch: seq<Delivered>,
      serial: string)
    requires Single(server, fetch, stored, batch, serial).Ok?
    ensures Single(server, fetch, Single(server, fetch, stored, batch, serial).value, batch, serial) ==
            Single(server, fetch, stored, batch, serial)
  {
    if batch != [] {
      var front, last := batch[..|batch| - 1], batch[|batch| - 1];
      var middle := Single(server, fetch, stored, front, serial).value;
      SingleAgain(server, fetch, stored, front, serial);
      if last.serialNumber == serial {
        StepAgain(server, fetch, middle, last);
        if fetch || !Stalled(middle, last) {
          LastAgain(server, fetch, stored, front, last);
        }
      }
    }
  }

  /** The front of the batch, replayed over a record its last operation was applied to. */
  lemma {:induction false} LastAgain(server: nat, fetch: bool, stored: Option<Device>, front: seq<Delivered>,
      last: Delivered)
    requires Single(server, fetch, stored, front, last.serialNumber).Ok?
    requires var middle := Single(server, fetch, stored, front, last.serialNumber).value;
             && Single(server, fetch, middle, front, last.serialNumber) == Ok(middle)
             && Step(server, fetch, middle, last).Ok? && (fetch || !Stalled(middle, last))
    ensures var done := Step(server, fetch, Single(server, fetch, stored, front, last.serialNumber).value, last).value;
            && Single(server, fetch, done, front, last.serialNumber).Ok?
            && Step(server, fetch, Single(server, fetch, done, front, last.serialNumber).value, last) == Ok(done)
  {
    var serial := last.serialNumber;
    var middle := Single(server, fetch, stored, front, serial).value;
    var done := Step(server, fetch, middle, last).value;
    if middle.None? || (!fetch && middle.value.opDate.None?) {
      NotInBatch(server, fetch, stored, front, serial);
    } else if fetch || middle.value.opDate == last.opDate {
      AlikeAfter(server, fetch, last, middle, done, front, serial);
    } else {
      SingleDate(server, stored, front, serial);
      AllStalled(server, done, stored, front, serial);
    }
  }

  /** A batch delivered a second time changes nothing, and fails again where it failed. */
  lemma {:induction false} BatchAgain(server: nat, fetch: bool, devices: Devices, batch: seq<Delivered>)
    ensures ApplyAll(server, fetch, ApplyAll(server, fetch, devices, batch).devices, batch) ==
            ApplyAll(server, fetch, devices, batch)
  {
    if batch != [] {
      var front, done := batch[..|batch| - 1], ApplyAll(server, fetch, devices, batch);
      BatchAgain(server, fetch, devices, front);
      if done.error.None? {
        forall serial
          ensures Single(server, fetch, Get(done.devices, serial), batch, serial) == Ok(Get(done.devices, serial))
        {
          AppliedSingly(server, fetch, devices, batch, serial);
          SingleAgain(server, fetch, Get(devices, serial), batch, serial);
        }
        SinglesApply(server, fetch, done.devices, batch);
        var again := ApplyAll(server, fetch, done.devices, batch);
        forall serial ensures Get(again.devices, serial) == Get(done.devices, serial) {
          AppliedSingly(server, fetch, done.devices, batch, serial);
        }
        SameDevices(again.devices, done.devices);
      }
    }
  }

  lemma {:induction false} SameDevices(a: Devices, b: Devices)
    requires forall serial :: Get(a, serial) == Get(b, serial)
    ensures a == b
  {
    forall serial ensures (serial in a <==> serial in b) && (serial in a ==> a[serial] == b[serial]) {
      assert Get(a, serial) == Get(b, serial);
    }
  }

  lemma {:induction false} ApplyConcat(server: nat, fetch: bool, devices: Devices, a: seq<Delivered>, b: seq<Delivered>)
    ensures var first := ApplyAll(server, fetch, devices, a);
            ApplyAll(server, fetch, devices, a + b) ==
            if first.error.Some? then first else ApplyAll(server, fetch, first.devices, b)
  {
    if b == [] {
      assert a + b == a;
    } else {
      ApplyConcat(server, fetch, devices, a, b[..|b| - 1]);
      assert (a + b)[..|a + b| - 1] == a + b[..|b| - 1];
    }
  }

  /** A sync that stops after n operations, before the cursor is saved, and is run again
      from the same cursor, ends as if it had not been interrupted. */
  lemma {:induction false} ResumedSync(server: nat, fetch: bool, devices: Devices, batch: seq<Delivered>, n: nat)
    requires n <= |batch|
    ensures ApplyAll(server, fetch, ApplyAll(server, fetch, devices, batch[..n]).devices, batch) ==
            ApplyAll(server, fetch, devices, batch)
  {
    var prefix := ApplyAll(server, fetch, devices, batch[..n]);
    BatchAgain(server, fetch, devices, batch[..n]);
    ApplyConcat(server, fetch, devices, batch[..n], batch[n..]);
    ApplyConcat(server, fetch, prefix.devices, batch[..n], batch[n..]);
    assert batch == batch[..n] + batch[n..];
  }

  // ----- what a fetch leaves -----

  lemma {:induction false} FetchedSingle(server: nat, stored: Option<Device>, batch: seq<Delivered>, serial: string)
    requires Single(server, true, stored, batch, serial).Ok?
    ensures var after := Single(server, true, stored, batch, serial).value;
            var op := if stored.Some? then (stored.value.opType, stored.value.opDate) else (None, None);
            && (after.Some? ==> (after.value.opType, after.value.opDate) == op)
            && (if serial in Serials(batch) then after.Some? && after.value.server == server else after == stored)
  {
    if batch != [] {
      FetchedSingle(server, stored, batch[..|batch| - 1], serial);
      assert Serials(batch) == Serials(batch[..|batch| - 1]) + [batch[|batch| - 1].serialNumber];
    }
  }

  predicate IsDeleted(d: Device) {
    d.opType == Some(OP_TYPE_DELETED)
  }

  /** After a fetch, the server has exactly the devices that were found and the ones it
      had, and a device of the server is deleted if it was not found, or was deleted
      before: finding it again does not bring it back. */
  lemma {:induction false} FetchDeletes(server: nat, devices: Devices, batch: seq<Delivered>, serial: string)
    requires ApplyAll(server, true, devices, batch).error.None?
    ensures var after := MarkOthersDeleted(server, ApplyAll(server, true, devices, batch).devices, Serials(batch));
            && (serial in after <==> serial in devices || serial in Serials(batch))
            && (serial in Serials(batch) ==> after[serial].server == server)
            && (serial in after && after[serial].server == server ==>
                  (IsDeleted(after[serial]) <==>
                      serial !in Serials(batch) ||
                      (serial in devices && IsDeleted(devices[serial]))))
            && (serial in after && after[serial].server != server ==>
                serial in devices && after[serial] == devices[serial])
            && (serial in devices ==> after[serial].opDate == devices[serial].opDate)
  {
    AppliedSingly(server, true, devices, batch, serial);
    FetchedSingle(server, Get(devices, serial), batch, serial);
  }
}
