/**
 * The attendance toggle engine: each badge scan flips the badge's presence marker in the
 * `tags` namespace and appends an IN/OUT row to the `time` ledger; the whole ledger can be
 * read back entry by entry.
 */
module Database {
  import opened Esp
  import opened Decimal
  import opened Nvs

  /** `char picc_tag[25]`, written with `snprintf(picc_tag, sizeof picc_tag - 1, ...)`. */
  const TagBufferSize := 25
  /** `char buf[40]`, written with `snprintf(buf, sizeof buf - 1, ...)`. */
  const TimeBufferSize := 40

  /** The `tags` key of a badge serial. The rendering is never truncated. */
  function TagKey(serial: uint64): (key: string)
    ensures key == Render(serial as nat)
    ensures |key| <= 20 < TagBufferSize - 2
  {
    Uint64Digits(serial);
    Snprintf(Render(serial as nat), TagBufferSize - 1)
  }

  /** The `time` key of a clock reading: `tv_sec` printed as `PRIu64`. Never truncated. */
  function TimeKey(clock: int64): (key: string)
    ensures key == Render(AsUnsigned(clock) as nat)
    ensures |key| <= 20 < TimeBufferSize - 2
  {
    Uint64Digits(AsUnsigned(clock));
    Snprintf(Render(AsUnsigned(clock) as nat), TimeBufferSize - 1)
  }

  /** Faults injected into `db_save_time_entry`'s open, `nvs_set_blob` (`write`) and commit. */
  datatype LedgerFaults = LedgerFaults(open: Fault, write: Fault, commit: Fault)

  /**
   * Faults injected into `db_save_tag`'s open, `nvs_get_i8`, the write (`nvs_erase_key` or
   * `nvs_set_i8`, whichever runs), the ledger append and the final commit of `tags`.
   */
  datatype ScanFaults = ScanFaults(open: Fault, get: Fault, write: Fault, ledger: LedgerFaults, commit: Fault)

  const NoLedgerFaults := LedgerFaults(Ok, Ok, Ok)
  const NoFaults := ScanFaults(Ok, Ok, Ok, NoLedgerFaults, Ok)

  /** The returned error code and the store's contents afterwards. */
  datatype Outcome = Outcome(err: Status, state: State)

  /** What `db_save_time_entry` does to the store. */
  function SaveTimeEntryEffect(s: State, blob: TimeBlob, clock: int64, f: LedgerFaults): (r: Outcome) {
    if f.open != Ok then Outcome(f.open, s)
    else if f.write != Ok then Outcome(f.write, s)
    else Outcome(f.commit, s.(time := s.time[TimeKey(clock) := blob]))
  }

  /** What `db_save_tag` does to the store. The ledger append's status is discarded. */
  function SaveTagEffect(s: State, serial: uint64, clock: int64, f: ScanFaults): (r: Outcome) {
    if f.open != Ok then Outcome(f.open, s)
    else
      var key := TagKey(serial);
      var got := LookupStatus(key in s.tags, f.get);
      if got != Ok && got != NotFound then Outcome(got, s)
      else
        var write := if got == Ok then LookupStatus(key in s.tags, f.write) else f.write;
        if write != Ok then Outcome(write, s)
        else
          var toggled := if got == Ok then s.(tags := s.tags - {key}) else s.(tags := s.tags[key := 0]);
          var direction := if got == Ok then Out else In;
          var logged := SaveTimeEntryEffect(toggled, TimeBlob(key, direction), clock, f.ledger);
          Outcome(f.commit, logged.state)
  }

  /** `db_save_time_entry`: writes `blob` under the current second, replacing any older row. */
  method SaveTimeEntry(db: Store, blob: TimeBlob, clock: int64, f: LedgerFaults) returns (err: Status)
    modifies db
    ensures Outcome(err, db.Contents()) == SaveTimeEntryEffect(old(db.Contents()), blob, clock, f)
  {
    err := db.Open(TimeNamespace, f.open);
    if err != Ok { return; }
    var key := TimeKey(clock);
    err := db.SetBlob(key, blob, f.write);
    if err != Ok { return; }
    err := db.Commit(TimeNamespace, f.commit);
  }

  /** `db_save_tag`: the presence toggle followed by the ledger append and the commit of `tags`. */
  method SaveTag(db: Store, serial: uint64, clock: int64, f: ScanFaults) returns (err: Status)
    modifies db
    ensures Outcome(err, db.Contents()) == SaveTagEffect(old(db.Contents()), serial, clock, f)
  {
    err := db.Open(TagsNamespace, f.open);
    if err != Ok { return; }
    var key := TagKey(serial);
    var value;
    err, value := db.GetI8(key, f.get);
    if err != Ok && err != NotFound {
      return;
    } else if err == Ok {
      // The badge is checked in: this scan checks it out.
      err := db.EraseKey(key, f.write);
      if err != Ok { return; }
      var ignored := SaveTimeEntry(db, TimeBlob(key, Out), clock, f.ledger);
    } else {
      // The badge is absent: this scan checks it in.
      err := db.SetI8(key, 0, f.write);
      if err != Ok { return; }
      var ignored := SaveTimeEntry(db, TimeBlob(key, In), clock, f.ledger);
    }
    err := db.Commit(TagsNamespace, f.commit);
  }

  // ---------------------------------------------------------------------------------------
  // Properties of one scan

  /** Scanning an absent badge checks it in (value 0) and, if the ledger write goes through, logs IN. */
  lemma CheckIn(s: State, serial: uint64, clock: int64, f: ScanFaults)
    requires TagKey(serial) !in s.tags
    requires f.open == Ok && f.get == Ok && f.write == Ok
    ensures var r := SaveTagEffect(s, serial, clock, f);
      && r.err == f.commit
      && r.state.tags == s.tags[TagKey(serial) := 0]
      && r.state.time == if f.ledger.open == Ok && f.ledger.write == Ok
                         then s.time[TimeKey(clock) := TimeBlob(TagKey(serial), In)]
                         else s.time
  {
  }

  /** Scanning a present badge checks it out and, if the ledger write goes through, logs OUT. */
  lemma CheckOut(s: State, serial: uint64, clock: int64, f: ScanFaults)
    requires TagKey(serial) in s.tags
    requires f.open == Ok && f.get == Ok && f.write == Ok
    ensures var r := SaveTagEffect(s, serial, clock, f);
      && r.err == f.commit
      && r.state.tags == s.tags - {TagKey(serial)}
      && r.state.time == if f.ledger.open == Ok && f.ledger.write == Ok
                         then s.time[TimeKey(clock) := TimeBlob(TagKey(serial), Out)]
                         else s.time
  {
  }

  /**
   * A failed open, a failed read other than NOT_FOUND, or a failed erase/set returns that error
   * and leaves both namespaces as they were: no ledger row is written.
   */
  lemma EarlyFailureChangesNothing(s: State, serial: uint64, clock: int64, f: ScanFaults)
    ensures var r := SaveTagEffect(s, serial, clock, f);
      && (f.open != Ok ==> r == Outcome(f.open, s))
      && (f.open == Ok && f.get != Ok && f.get != NotFound ==> r == Outcome(f.get, s))
      && (f.open == Ok && (f.get == Ok || f.get == NotFound) && f.write != Ok ==> r == Outcome(f.write, s))
  {
  }

  /**
   * The store changes only when open, read and write succeed, and a successful return implies
   * they did; when the read itself was not faulted, the presence has flipped.
   */
  lemma PresenceFlipsExactlyOnToggle(s: State, serial: uint64, clock: int64, f: ScanFaults)
    ensures var r := SaveTagEffect(s, serial, clock, f);
      var wrote := f.open == Ok && (f.get == Ok || f.get == NotFound) && f.write == Ok;
      && (wrote && f.get == Ok ==> (TagKey(serial) in r.state.tags <==> TagKey(serial) !in s.tags))
      && (!wrote ==> r.state == s)
      && (r.err == Ok ==> wrote)
  {
  }

  /**
   * The ledger append's outcome never reaches the caller: the status and the `tags` namespace
   * are the same whatever happens to the append.
   */
  lemma LedgerFaultsNotPropagated(s: State, serial: uint64, clock: int64, f: ScanFaults, g: LedgerFaults)
    ensures var a := SaveTagEffect(s, serial, clock, f);
      var b := SaveTagEffect(s, serial, clock, f.(ledger := g));
      a.err == b.err && a.state.tags == b.state.tags
  {
  }

  /**
   * Only the scanned badge's key changes in `tags`, and only the current second's key in `time`;
   * a ledger row written under that key replaces whatever row was there.
   */
  lemma OnlyScannedKeysChange(s: State, serial: uint64, clock: int64, f: ScanFaults)
    ensures var r := SaveTagEffect(s, serial, clock, f);
      && r.state.tags - {TagKey(serial)} == s.tags - {TagKey(serial)}
      && r.state.time - {TimeKey(clock)} == s.time - {TimeKey(clock)}
      && (TimeKey(clock) in r.state.time && r.state.time != s.time ==>
            r.state.time[TimeKey(clock)].tag == TagKey(serial))
  {
    var r := SaveTagEffect(s, serial, clock, f);
    var key := TagKey(serial);
    if f.open == Ok && r.state != s {
      var toggled := if LookupStatus(key in s.tags, f.get) == Ok then s.(tags := s.tags - {key})
                     else s.(tags := s.tags[key := 0]);
      assert r.state.tags == toggled.tags;
      assert toggled.tags - {key} == s.tags - {key};
    }
  }

  /** Two distinct badges never share a `tags` key, so scanning one never touches the other. */
  lemma OtherBadgesUntouched(s: State, serial: uint64, other: uint64, clock: int64, f: ScanFaults)
    requires other != serial
    ensures var r := SaveTagEffect(s, serial, clock, f);
      (TagKey(other) in r.state.tags <==> TagKey(other) in s.tags)
      && (TagKey(other) in s.tags ==> r.state.tags[TagKey(other)] == s.tags[TagKey(other)])
  {
    RenderInjective(serial as nat, other as nat);
    OnlyScannedKeysChange(s, serial, clock, f);
    var r := SaveTagEffect(s, serial, clock, f);
    assert TagKey(other) in r.state.tags - {TagKey(serial)} <==> TagKey(other) in s.tags - {TagKey(serial)};
    if TagKey(other) in s.tags {
      assert (r.state.tags - {TagKey(serial)})[TagKey(other)] == (s.tags - {TagKey(serial)})[TagKey(other)];
    }
  }

  /** Distinct clock readings give distinct ledger keys. */
  lemma TimeKeyInjective(a: int64, b: int64)
    ensures TimeKey(a) == TimeKey(b) <==> a == b
  {
    RenderInjective(AsUnsigned(a) as nat, AsUnsigned(b) as nat);
  }

  // ---------------------------------------------------------------------------------------
  // Properties of scan sequences

  /** A badge never scanned before is checked in and then out; `tags` is back where it was. */
  lemma ScanTwice(s: State, serial: uint64, first: int64, second: int64)
    requires TagKey(serial) !in s.tags
    requires first != second
    ensures var a := SaveTagEffect(s, serial, first, NoFaults);
      var b := SaveTagEffect(a.state, serial, second, NoFaults);
      && a.err == Ok && b.err == Ok
      && b.state.tags == s.tags
      && b.state.time == s.time[TimeKey(first) := TimeBlob(TagKey(serial), In)]
                               [TimeKey(second) := TimeBlob(TagKey(serial), Out)]
      && TimeKey(first) != TimeKey(second)
  {
    TimeKeyInjective(first, second);
    var a := SaveTagEffect(s, serial, first, NoFaults);
    CheckIn(s, serial, first, NoFaults);
    CheckOut(a.state, serial, second, NoFaults);
    assert s.tags[TagKey(serial) := 0] - {TagKey(serial)} == s.tags;
  }

  /** Two scans within the same second: the OUT row overwrites the IN row. */
  lemma ScanTwiceSameSecond(s: State, serial: uint64, clock: int64)
    requires TagKey(serial) !in s.tags
    ensures var a := SaveTagEffect(s, serial, clock, NoFaults);
      var b := SaveTagEffect(a.state, serial, clock, NoFaults);
      && b.state.tags == s.tags
      && b.state.time == s.time[TimeKey(clock) := TimeBlob(TagKey(serial), Out)]
  {
    var a := SaveTagEffect(s, serial, clock, NoFaults);
    CheckIn(s, serial, clock, NoFaults);
    CheckOut(a.state, serial, clock, NoFaults);
    assert s.tags[TagKey(serial) := 0] - {TagKey(serial)} == s.tags;
  }

  /** The store after fault-free scans of one badge at the given clock readings. */
  function ScanAll(s: State, serial: uint64, clocks: seq<int64>): (r: State)
    decreases |clocks|
  {
    if clocks == [] then s
    else ScanAll(SaveTagEffect(s, serial, clocks[0], NoFaults).state, serial, clocks[1..])
  }

  /** Presence is a two-state machine: after `n` fault-free scans it has flipped `n` times. */
  lemma {:induction false} PresenceParity(s: State, serial: uint64, clocks: seq<int64>)
    ensures TagKey(serial) in ScanAll(s, serial, clocks).tags
        <==> (TagKey(serial) in s.tags) != (|clocks| % 2 == 1)
    decreases |clocks|
  {
    if clocks != [] {
      PresenceFlipsExactlyOnToggle(s, serial, clocks[0], NoFaults);
      PresenceParity(SaveTagEffect(s, serial, clocks[0], NoFaults).state, serial, clocks[1..]);
    }
  }

  // ---------------------------------------------------------------------------------------
  // Reading the ledger

  /** One row printed by `read_time_entry`: the `time` key and the blob stored under it. */
  datatype Row = Row(time: string, blob: TimeBlob)

  /** The fault injected into `nvs_open`, the store's enumeration, and the fault of each blob read. */
  datatype ReadFaults = ReadFaults(open: Fault, entries: Enumeration, blobs: seq<Fault>)

  /** The status `db_read_attendance` returns and the rows it printed on the way. */
  datatype Attendance = Attendance(err: Status, rows: seq<Row>)

  /** The `nvs_get_blob` status for entry `i` of the enumeration. */
  function ReadStatus(time: map<string, TimeBlob>, env: ReadFaults, i: nat): (err: Status)
    requires i < |env.entries.order|
  {
    LookupStatus(env.entries.order[i] in time, FaultAt(env.blobs, i))
  }

  /** The loop of `db_read_attendance` from iterator step `i` on. */
  function ScanFrom(time: map<string, TimeBlob>, env: ReadFaults, i: nat): (r: Attendance)
    decreases |env.entries.order| - i
  {
    if IterStatus(env.entries, i) != Ok then Attendance(Ok, [])
    else if ReadStatus(time, env, i) != Ok then Attendance(ReadStatus(time, env, i), [])
    else
      var key := env.entries.order[i];
      var rest := ScanFrom(time, env, i + 1);
      Attendance(rest.err, [Row(key, time[key])] + rest.rows)
  }

  /** What `db_read_attendance` returns and prints for the ledger `time`. */
  function AttendanceOf(time: map<string, TimeBlob>, env: ReadFaults): (r: Attendance) {
    if env.open != Ok then Attendance(env.open, []) else ScanFrom(time, env, 0)
  }

  /** `read_time_entry`: reads one ledger blob; on success it is the row that gets printed. */
  method ReadTimeEntry(db: Store, key: string, fault: Fault) returns (err: Status, row: Row)
    ensures err == LookupStatus(key in db.time, fault)
    ensures err == Ok ==> key in db.time && row == Row(key, db.time[key])
  {
    var blob;
    err, blob := db.GetBlob(key, fault);
    row := Row(key, blob);
  }

  /** `db_read_attendance`: walks the `time` namespace, stopping at the first failed read. */
  method ReadAttendance(db: Store, env: ReadFaults) returns (err: Status, rows: seq<Row>)
    ensures Attendance(err, rows) == AttendanceOf(db.time, env)
  {
    rows := [];
    err := db.Open(TimeNamespace, env.open);
    if err != Ok { return; }
    var i := 0;
    var res, key := db.EntryStep(env.entries, i);
    while res == Ok
      invariant res == IterStatus(env.entries, i)
      invariant res == Ok ==> key == env.entries.order[i]
      invariant AttendanceOf(db.time, env)
             == Attendance(ScanFrom(db.time, env, i).err, rows + ScanFrom(db.time, env, i).rows)
      decreases |env.entries.order| - i
    {
      var row;
      err, row := ReadTimeEntry(db, key, FaultAt(env.blobs, i));
      if err != Ok { return; }
      rows := rows + [row];
      i := i + 1;
      res, key := db.EntryStep(env.entries, i);
    }
    err := Ok;
  }

  /** Entry `i` is reached: every iterator step up to and including `i` succeeded. */
  ghost predicate Yields(e: Enumeration, i: nat) {
    forall j :: 0 <= j <= i ==> IterStatus(e, j) == Ok
  }

  lemma {:induction false} ScanFromOkIff(time: map<string, TimeBlob>, env: ReadFaults, i: nat)
    requires forall j :: 0 <= j < i ==> IterStatus(env.entries, j) == Ok
    ensures ScanFrom(time, env, i).err == Ok <==>
      forall k :: i <= k < |env.entries.order| && Yields(env.entries, k) ==> ReadStatus(time, env, k) == Ok
    decreases |env.entries.order| - i
  {
    if IterStatus(env.entries, i) != Ok {
      forall k | i <= k < |env.entries.order| ensures !Yields(env.entries, k) {
        assert IterStatus(env.entries, i) != Ok;
      }
    } else if ReadStatus(time, env, i) != Ok {
      assert Yields(env.entries, i);
    } else {
      ScanFromOkIff(time, env, i + 1);
    }
  }

  /**
   * `db_read_attendance` returns OK exactly when the open succeeds and every entry the
   * iterator reaches is read successfully; an iterator error just ends the walk.
   */
  lemma AttendanceOkIff(time: map<string, TimeBlob>, env: ReadFaults)
    ensures AttendanceOf(time, env).err == Ok <==>
      env.open == Ok &&
      forall k :: 0 <= k < |env.entries.order| && Yields(env.entries, k) ==> ReadStatus(time, env, k) == Ok
  {
    ScanFromOkIff(time, env, 0);
  }

  /** The rows of entries `i..j`, as they are printed. */
  function RowsOf(time: map<string, TimeBlob>, order: seq<string>, i: nat, j: nat): (rows: seq<Row>)
    requires i <= j <= |order|
    requires forall k :: i <= k < j ==> order[k] in time
    ensures |rows| == j - i
    ensures forall k :: 0 <= k < j - i ==> rows[k] == Row(order[i + k], time[order[i + k]])
    decreases j - i
  {
    if i == j then [] else [Row(order[i], time[order[i]])] + RowsOf(time, order, i + 1, j)
  }

  lemma {:induction false} ScanFromFirstFailure(time: map<string, TimeBlob>, env: ReadFaults, i: nat, m: nat)
    requires i <= m < |env.entries.order|
    requires forall j :: i <= j <= m ==> IterStatus(env.entries, j) == Ok
    requires forall j :: i <= j < m ==> ReadStatus(time, env, j) == Ok
    requires ReadStatus(time, env, m) != Ok
    ensures forall k :: i <= k < m ==> env.entries.order[k] in time
    ensures ScanFrom(time, env, i) == Attendance(ReadStatus(time, env, m), RowsOf(time, env.entries.order, i, m))
    decreases m - i
  {
    forall k | i <= k < m ensures env.entries.order[k] in time {
      assert ReadStatus(time, env, k) == Ok;
    }
    if i < m {
      assert IterStatus(env.entries, i) == Ok && ReadStatus(time, env, i) == Ok;
      ScanFromFirstFailure(time, env, i + 1, m);
    }
  }

  /**
   * The walk stops at the first failed read: that read's error is returned, and only the
   * entries before it were printed.
   */
  lemma AttendanceStopsAtFirstFailure(time: map<string, TimeBlob>, env: ReadFaults, m: nat)
    requires env.open == Ok
    requires m < |env.entries.order| && Yields(env.entries, m)
    requires forall j :: 0 <= j < m ==> ReadStatus(time, env, j) == Ok
    requires ReadStatus(time, env, m) != Ok
    ensures AttendanceOf(time, env).err == ReadStatus(time, env, m)
    ensures forall k :: 0 <= k < m ==> env.entries.order[k] in time
    ensures AttendanceOf(time, env).rows == RowsOf(time, env.entries.order, 0, m)
  {
    ScanFromFirstFailure(time, env, 0, m);
  }

  /** With no faults, the walk from step `i` prints every remaining entry in enumeration order. */
  lemma {:induction false} ScanFromFaultFree(time: map<string, TimeBlob>, order: seq<string>, i: nat)
    requires i <= |order|
    requires forall k :: i <= k < |order| ==> order[k] in time
    ensures ScanFrom(time, ReadFaults(Ok, Enumeration(order, []), []), i)
         == Attendance(Ok, RowsOf(time, order, i, |order|))
    decreases |order| - i
  {
    if i < |order| {
      ScanFromFaultFree(time, order, i + 1);
    }
  }

  /**
   * With no faults, `db_read_attendance` returns OK and prints every ledger entry exactly once,
   * in the store's enumeration order.
   */
  lemma AttendanceListsLedger(time: map<string, TimeBlob>, order: seq<string>)
    requires Enumerates(order, time)
    ensures var r := AttendanceOf(time, ReadFaults(Ok, Enumeration(order, []), []));
      && r.err == Ok
      && |r.rows| == |order|
      && (forall k :: 0 <= k < |order| ==> r.rows[k] == Row(order[k], time[order[k]]))
      && (forall key :: key in time ==> Row(key, time[key]) in r.rows)
  {
    ScanFromFaultFree(time, order, 0);
    var r := AttendanceOf(time, ReadFaults(Ok, Enumeration(order, []), []));
    forall key | key in time ensures Row(key, time[key]) in r.rows {
      var k :| 0 <= k < |order| && order[k] == key;
      assert r.rows[k] == Row(key, time[key]);
    }
  }

  /** A row appended by a successful ledger write shows up, verbatim, in a fault-free read. */
  lemma AppendThenRead(s: State, blob: TimeBlob, clock: int64, order: seq<string>)
    requires Enumerates(order, SaveTimeEntryEffect(s, blob, clock, NoLedgerFaults).state.time)
    ensures Row(TimeKey(clock), blob)
      in AttendanceOf(SaveTimeEntryEffect(s, blob, clock, NoLedgerFaults).state.time,
                      ReadFaults(Ok, Enumeration(order, []), [])).rows
  {
    var time := SaveTimeEntryEffect(s, blob, clock, NoLedgerFaults).state.time;
    assert TimeKey(clock) in time && time[TimeKey(clock)] == blob;
    AttendanceListsLedger(time, order);
  }
}
