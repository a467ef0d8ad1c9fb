/** What each column of a device record holds after a batch, said of the delivered
    operations themselves: the last one that was not stalled decides, and for a column that
    need not be delivered the last one that gave it. */
module DepSyncRecords {
  import opened Wrappers
  import opened DepClient
  import opened DepSync
  import opened DepSyncLaws

  // ----- operations that count -----

  /** A newer operation was known before the i-th one of the batch. */
  ghost predicate Overtaken(stored: Option<Device>, batch: seq<Delivered>, serial: string, i: nat)
    requires i < |batch|
  {
    batch[i].opDate.Some? &&
    ((stored.Some? && stored.value.opDate.Some? && stored.value.opDate.value > batch[i].opDate.value)
     || exists j :: 0 <= j < i && batch[j].serialNumber == serial && batch[j].opDate.Some? &&
          batch[j].opDate.value > batch[i].opDate.value)
  }

  /** The i-th operation is one of the device, and, in a sync, not stalled. */
  ghost predicate Counts(fetch: bool, stored: Option<Device>, batch: seq<Delivered>, serial: string, i: nat) {
    i < |batch| && batch[i].serialNumber == serial && (fetch || !Overtaken(stored, batch, serial, i))
  }

  ghost predicate LastThatCounts(fetch: bool, stored: Option<Device>, batch: seq<Delivered>, serial: string, i: nat) {
    Counts(fetch, stored, batch, serial, i) && forall j: nat | i < j :: !Counts(fetch, stored, batch, serial, j)
  }

  // ----- columns that need not be delivered -----

  datatype Column = AssignedBy | ProfileStatus | ProfileUuid

  function SentFor(d: Delivered, c: Column): Attr<string> {
    match c
    case AssignedBy => d.assignedBy
    case ProfileStatus => d.profileStatus
    case ProfileUuid => d.profileUuid
  }

  function Recorded(d: Device, c: Column): Option<string> {
    match c
    case AssignedBy => Some(d.assignedBy)
    case ProfileStatus => Some(d.profileStatus)
    case ProfileUuid => d.profileUuid
  }

  /** What a device that was not known before starts with. */
  function Initial(c: Column): Option<string> {
    match c
    case AssignedBy => Some("")
    case ProfileStatus => Some("empty")
    case ProfileUuid => None
  }

  /** The i-th operation counts, and gave the column. */
  ghost predicate Gives(fetch: bool, stored: Option<Device>, batch: seq<Delivered>, serial: string, c: Column, i: nat) {
    Counts(fetch, stored, batch, serial, i) && !SentFor(batch[i], c).Absent?
  }

  ghost predicate LastThatGives(fetch: bool, stored: Option<Device>, batch: seq<Delivered>, serial: string, c: Column,
      i: nat)
  {
    && Gives(fetch, stored, batch, serial, c, i)
    && forall j: nat | i < j :: !Gives(fetch, stored, batch, serial, c, j)
  }

  // ----- the record after a batch -----

  /** Dates and server are those of the operation; the operation is recorded in a sync. */
  ghost predicate TakenFrom(server: nat, fetch: bool, stored: Option<Device>, d: Delivered, r: Device) {
    && r.server == server
    && Some(r.assignedDate) == d.assignedDate && r.assignTime == d.assignTime && r.pushTime == d.pushTime
    && if fetch then
         if stored.Some? then r.opType == stored.value.opType && r.opDate == stored.value.opDate
         else r.opType == None && r.opDate == None
       else r.opDate == d.opDate && Matches(d.opType, r.opType)
  }

  /** A delivered value is recorded, null as None. */
  predicate Matches(a: Attr<string>, recorded: Option<string>) {
    match a
    case Given(v) => recorded == Some(v)
    case Null => recorded == None
    case Absent => false
  }

  ghost predicate ColumnOk(fetch: bool, stored: Option<Device>, batch: seq<Delivered>, serial: string, c: Column,
      r: Device)
  {
    && (forall i: nat | LastThatGives(fetch, stored, batch, serial, c, i) ::
          Matches(SentFor(batch[i], c), Recorded(r, c)))
    && ((forall i: nat :: !Gives(fetch, stored, batch, serial, c, i)) ==>
          Recorded(r, c) == if stored.Some? then Recorded(stored.value, c) else Initial(c))
  }

  ghost predicate RecordOk(server: nat, fetch: bool, stored: Option<Device>, batch: seq<Delivered>, serial: string,
      r: Option<Device>)
  {
    && ((forall i: nat :: !Counts(fetch, stored, batch, serial, i)) ==> r == stored)
    && (forall i: nat | LastThatCounts(fetch, stored, batch, serial, i) ::
          r.Some? && TakenFrom(server, fetch, stored, batch[i], r.value))
    && (r.Some? ==> forall c :: ColumnOk(fetch, stored, batch, serial, c, r.value))
  }

  // ----- one operation more -----

  lemma {:induction false} CountsBefore(fetch: bool, stored: Option<Device>, front: seq<Delivered>, last: Delivered,
      serial: string)
    ensures forall i: nat | i < |front| ::
              Counts(fetch, stored, front + [last], serial, i) <==> Counts(fetch, stored, front, serial, i)
  {
    var batch := front + [last];
    forall i: nat | i < |front|
      ensures Counts(fetch, stored, batch, serial, i) <==> Counts(fetch, stored, front, serial, i)
    {
      assert batch[i] == front[i];
      assert forall j | 0 <= j < i :: batch[j] == front[j];
    }
  }

  /** The last operation is stalled exactly if a newer one was known before. */
  lemma {:induction false} StalledIsOvertaken(server: nat, stored: Option<Device>, front: seq<Delivered>,
      last: Delivered)
    requires Single(server, false, stored, front, last.serialNumber).Ok?
    ensures Stalled(Single(server, false, stored, front, last.serialNumber).value, last) <==>
            Overtaken(stored, front + [last], last.serialNumber, |front|)
  {
    var batch, serial := front + [last], last.serialNumber;
    var date := LatestDate(DateOf(stored), front, serial);
    SingleDate(server, stored, front, serial);
    assert batch[|front|] == last && forall j | 0 <= j < |front| :: batch[j] == front[j];
    if last.opDate.Some? && date.Some? && date.value > last.opDate.value && date != DateOf(stored) {
      var d :| d in front && d.serialNumber == serial && d.opDate == date;
      var j :| 0 <= j < |front| && front[j] == d;
      assert batch[j].opDate.value > batch[|front|].opDate.value;
    }
    if Overtaken(stored, batch, serial, |front|) && !(stored.Some? && stored.value.opDate.Some? &&
        stored.value.opDate.value > last.opDate.value) {
      var j :| 0 <= j < |front| && batch[j].serialNumber == serial && batch[j].opDate.Some? &&
        batch[j].opDate.value > last.opDate.value;
      assert front[j] in front;
    }
  }

  /** The same operations count, of which the same give a column. */
  ghost predicate SameCounts(fetch: bool, stored: Option<Device>, a: seq<Delivered>, b: seq<Delivered>, serial: string)
  {
    forall i: nat :: Counts(fetch, stored, a, serial, i) <==> Counts(fetch, stored, b, serial, i)
  }

  ghost predicate SameGiven(fetch: bool, stored: Option<Device>, a: seq<Delivered>, b: seq<Delivered>, serial: string,
      c: Column)
  {
    && (forall i: nat :: Gives(fetch, stored, a, serial, c, i) <==> Gives(fetch, stored, b, serial, c, i))
    && forall i: nat | Gives(fetch, stored, a, serial, c, i) :: SentFor(a[i], c) == SentFor(b[i], c)
  }

  lemma {:induction false} SameColumn(fetch: bool, stored: Option<Device>, a: seq<Delivered>, b: seq<Delivered>,
      serial: string, c: Column, r: Device)
    requires SameGiven(fetch, stored, a, b, serial, c) && ColumnOk(fetch, stored, a, serial, c, r)
    ensures ColumnOk(fetch, stored, b, serial, c, r)
  {
    forall i: nat | LastThatGives(fetch, stored, b, serial, c, i)
      ensures Matches(SentFor(b[i], c), Recorded(r, c))
    {
      LastGivesToo(fetch, stored, a, b, serial, c, i);
    }
  }

  lemma {:induction false} LastGivesToo(fetch: bool, stored: Option<Device>, a: seq<Delivered>, b: seq<Delivered>,
      serial: string, c: Column, i: nat)
    requires SameGiven(fetch, stored, a, b, serial, c) && LastThatGives(fetch, stored, b, serial, c, i)
    ensures LastThatGives(fetch, stored, a, serial, c, i) && SentFor(a[i], c) == SentFor(b[i], c)
  {
    assert Gives(fetch, stored, a, serial, c, i);
    forall j: nat | i < j ensures !Gives(fetch, stored, a, serial, c, j) {
      assert !Gives(fetch, stored, b, serial, c, j);
    }
  }

  /** An operation that gives nothing, or does not count, changes nothing of what is given. */
  lemma {:induction false} NotGiven(fetch: bool, stored: Option<Device>, front: seq<Delivered>, last: Delivered,
      serial: string, c: Column)
    requires !Gives(fetch, stored, front + [last], serial, c, |front|)
    ensures SameGiven(fetch, stored, front, front + [last], serial, c)
  {
    var batch := front + [last];
    CountsBefore(fetch, stored, front, last, serial);
    forall i: nat
      ensures Gives(fetch, stored, front, serial, c, i) <==> Gives(fetch, stored, batch, serial, c, i)
      ensures Gives(fetch, stored, front, serial, c, i) ==> SentFor(front[i], c) == SentFor(batch[i], c)
    {
      if i < |front| {
        assert batch[i] == front[i];
      }
    }
  }

  /** An operation that does not count leaves the record alone. */
  lemma {:induction false} NotCounted(server: nat, fetch: bool, stored: Option<Device>, front: seq<Delivered>,
      last: Delivered, serial: string, r: Option<Device>)
    requires RecordOk(server, fetch, stored, front, serial, r)
    requires !Counts(fetch, stored, front + [last], serial, |front|)
    ensures RecordOk(server, fetch, stored, front + [last], serial, r)
  {
    var batch := front + [last];
    SameCounted(fetch, stored, front, last, serial);
    forall i: nat | LastThatCounts(fetch, stored, batch, serial, i)
      ensures r.Some? && TakenFrom(server, fetch, stored, batch[i], r.value)
    {
      LastCountsToo(fetch, stored, front, batch, serial, i);
      assert batch[i] == front[i];
    }
    forall c | r.Some? ensures ColumnOk(fetch, stored, batch, serial, c, r.value) {
      assert ColumnOk(fetch, stored, front, serial, c, r.value);
      NotGiven(fetch, stored, front, last, serial, c);
      SameColumn(fetch, stored, front, batch, serial, c, r.value);
    }
    if forall i: nat :: !Counts(fetch, stored, batch, serial, i) {
      forall i: nat ensures !Counts(fetch, stored, front, serial, i) {
        assert !Counts(fetch, stored, batch, serial, i);
      }
    }
  }

  lemma {:induction false} SameCounted(fetch: bool, stored: Option<Device>, front: seq<Delivered>, last: Delivered,
      serial: string)
    requires !Counts(fetch, stored, front + [last], serial, |front|)
    ensures SameCounts(fetch, stored, front, front + [last], serial)
  {
    CountsBefore(fetch, stored, front, last, serial);
  }

  lemma {:induction false} LastCountsToo(fetch: bool, stored: Option<Device>, a: seq<Delivered>, b: seq<Delivered>,
      serial: string, i: nat)
    requires SameCounts(fetch, stored, a, b, serial) && LastThatCounts(fetch, stored, b, serial, i)
    ensures LastThatCounts(fetch, stored, a, serial, i)
  {
    assert Counts(fetch, stored, a, serial, i);
    forall j: nat | i < j ensures !Counts(fetch, stored, a, serial, j) {
      assert !Counts(fetch, stored, b, serial, j);
    }
  }

  /** One that counts decides, for the columns that it gives. */
  lemma {:induction false} Counted(server: nat, fetch: bool, stored: Option<Device>, front: seq<Delivered>,
      last: Delivered, serial: string, r: Option<Device>)
    requires RecordOk(server, fetch, stored, front, serial, r)
    requires Counts(fetch, stored, front + [last], serial, |front|) && !Violates(last)
    requires fetch || !last.opType.Absent?
    requires fetch && stored.Some? && r.Some? ==>
               r.value.opType == stored.value.opType && r.value.opDate == stored.value.opDate
    requires fetch && stored.None? && r.Some? ==> r.value.opType == None && r.value.opDate == None
    requires stored.Some? ==> r.Some?
    ensures RecordOk(server, fetch, stored, front + [last], serial, Some(Updated(server, fetch, r, last)))
  {
    var batch, n, after := front + [last], |front|, Updated(server, fetch, r, last);
    assert batch[n] == last;
    forall i: nat | LastThatCounts(fetch, stored, batch, serial, i) ensures i == n {
      assert i <= n;
    }
    forall c ensures ColumnOk(fetch, stored, batch, serial, c, after) {
      ColumnAfter(server, fetch, stored, front, last, serial, r, c);
    }
  }

  lemma {:induction false} ColumnAfter(server: nat, fetch: bool, stored: Option<Device>, front: seq<Delivered>,
      last: Delivered, serial: string, r: Option<Device>, c: Column)
    requires RecordOk(server, fetch, stored, front, serial, r)
    requires Counts(fetch, stored, front + [last], serial, |front|) && !Violates(last) && (stored.Some? ==> r.Some?)
    ensures ColumnOk(fetch, stored, front + [last], serial, c, Updated(server, fetch, r, last))
  {
    if SentFor(last, c).Absent? {
      ColumnStays(server, fetch, stored, front, last, serial, r, c);
    } else {
      ColumnGiven(server, fetch, stored, front, last, serial, r, c);
    }
  }

  lemma {:induction false} ColumnStays(server: nat, fetch: bool, stored: Option<Device>, front: seq<Delivered>,
      last: Delivered, serial: string, r: Option<Device>, c: Column)
    requires RecordOk(server, fetch, stored, front, serial, r) && SentFor(last, c).Absent? && !Violates(last)
    requires stored.Some? ==> r.Some?
    ensures ColumnOk(fetch, stored, front + [last], serial, c, Updated(server, fetch, r, last))
  {
    var after := Updated(server, fetch, r, last);
    assert (front + [last])[|front|] == last;
    NotGiven(fetch, stored, front, last, serial, c);
    if r.Some? {
      assert ColumnOk(fetch, stored, front, serial, c, r.value);
      SameColumn(fetch, stored, front, front + [last], serial, c, r.value);
      SameRecorded(fetch, stored, front + [last], serial, c, r.value, after);
    } else {
      NoneCounted(server, fetch, stored, front, serial, r);
      assert ColumnOk(fetch, stored, front, serial, c, after);
      SameColumn(fetch, stored, front, front + [last], serial, c, after);
    }
  }

  lemma {:induction false} SameRecorded(fetch: bool, stored: Option<Device>, batch: seq<Delivered>, serial: string,
      c: Column, a: Device, b: Device)
    requires ColumnOk(fetch, stored, batch, serial, c, a) && Recorded(a, c) == Recorded(b, c)
    ensures ColumnOk(fetch, stored, batch, serial, c, b)
  {
  }

  lemma {:induction false} ColumnGiven(server: nat, fetch: bool, stored: Option<Device>, front: seq<Delivered>,
      last: Delivered, serial: string, r: Option<Device>, c: Column)
    requires Counts(fetch, stored, front + [last], serial, |front|) && !SentFor(last, c).Absent? && !Violates(last)
    ensures ColumnOk(fetch, stored, front + [last], serial, c, Updated(server, fetch, r, last))
  {
    var batch, n := front + [last], |front|;
    assert batch[n] == last && Gives(fetch, stored, batch, serial, c, n);
    forall i: nat | LastThatGives(fetch, stored, batch, serial, c, i) ensures i == n {
      assert i <= n;
    }
  }

  /** A device without a record had no operation that counts. */
  lemma {:induction false} NoneCounted(server: nat, fetch: bool, stored: Option<Device>, batch: seq<Delivered>,
      serial: string, r: Option<Device>)
    requires RecordOk(server, fetch, stored, batch, serial, r) && r.None?
    ensures forall i: nat :: !Counts(fetch, stored, batch, serial, i)
  {
    if i: nat :| Counts(fetch, stored, batch, serial, i) {
      var k := LastOne(fetch, stored, batch, serial, i);
    }
  }

  lemma {:induction false} LastOne(fetch: bool, stored: Option<Device>, batch: seq<Delivered>, serial: string, i: nat)
    returns (k: nat)
    requires Counts(fetch, stored, batch, serial, i)
    ensures LastThatCounts(fetch, stored, batch, serial, k)
    decreases |batch| - i
  {
    if j: nat :| i < j && Counts(fetch, stored, batch, serial, j) {
      k := LastOne(fetch, stored, batch, serial, j);
    } else {
      k := i;
    }
  }

  lemma {:induction false} SingleRecord(server: nat, fetch: bool, stored: Option<Device>, batch: seq<Delivered>,
      serial: string)
    requires Single(server, fetch, stored, batch, serial).Ok?
    ensures var r := Single(server, fetch, stored, batch, serial).value;
            RecordOk(server, fetch, stored, batch, serial, r) && (stored.Some? ==> r.Some?)
  {
    if batch != [] {
      var front, last := batch[..|batch| - 1], batch[|batch| - 1];
      assert batch == front + [last];
      SingleRecord(server, fetch, stored, front, serial);
      var r := Single(server, fetch, stored, front, serial).value;
      if last.serialNumber == serial && !fetch {
        StalledIsOvertaken(server, stored, front, last);
      }
      if last.serialNumber == serial && (fetch || !Stalled(r, last)) {
        if fetch {
          FetchedSingle(server, stored, front, serial);
        }
        Counted(server, fetch, stored, front, last, serial, r);
      } else {
        NotCounted(server, fetch, stored, front, last, serial, r);
      }
    } else if stored.Some? {
      assert forall c :: ColumnOk(fetch, stored, batch, serial, c, stored.value);
    }
  }

  /** Every column of every record after a batch that did not fail. */
  lemma {:induction false} RecordsAfter(server: nat, fetch: bool, devices: Devices, batch: seq<Delivered>,
      serial: string)
    requires ApplyAll(server, fetch, devices, batch).error.None?
    ensures RecordOk(server, fetch, Get(devices, serial), batch, serial,
                     Get(ApplyAll(server, fetch, devices, batch).devices, serial))
  {
    AppliedSingly(server, fetch, devices, batch, serial);
    SingleRecord(server, fetch, Get(devices, serial), batch, serial);
  }
}
