/**
 The hash-chained event log (storage/eventlog.go). The table is a sequence of rows in `seq`
 order; SHA-256 (section 6.2 of FIPS 180-4) followed by hex encoding is an unknown function.
 Nothing is assumed about the function but, where it matters, that its values are 64 hex digits.
 */
module EventLogs {
  import opened Common

  type Hash = string -> string

  datatype Row = Row(
    eventType: string, entityID: string, nodeID: string,
    payload: string, checksum: string, prevChecksum: Option<string>)

  datatype Violation =
    | PrevMismatch(seqNo: nat, expected: string, got: string)
    | ChecksumMismatch(seqNo: nat, expected: string, got: string)

  datatype AppendError = MarshalFailed | InsertFailed

  datatype Outcome = Ok | Fail(error: AppendError)

  /** A missing previous checksum reads as the empty string. */
  function Prev(row: Row): string {
    if row.prevChecksum.Some? then row.prevChecksum.value else ""
  }

  function LastChecksum(rows: seq<Row>): string {
    if rows == [] then "" else rows[|rows| - 1].checksum
  }

  function Payloads(rows: seq<Row>): seq<string> {
    seq(|rows|, i requires 0 <= i < |rows| => rows[i].payload)
  }

  function NewRow(h: Hash, last: string, eventType: string, entityID: string, nodeID: string, payload: string): Row {
    Row(eventType, entityID, nodeID, payload, h(last + payload), Some(last))
  }

  // ---------- The chain ----------

  /** Row `i` continues the chain and carries its own checksum. */
  ghost predicate Linked(h: Hash, rows: seq<Row>, i: int)
    requires 0 <= i < |rows|
  {
    && Prev(rows[i]) == LastChecksum(rows[..i])
    && rows[i].checksum == h(Prev(rows[i]) + rows[i].payload)
  }

  ghost predicate Chained(h: Hash, rows: seq<Row>) {
    forall i :: 0 <= i < |rows| ==> Linked(h, rows, i)
  }

  /** What the verification loop finds wrong with one row. */
  function RowViolations(h: Hash, seqNo: nat, expectedPrev: string, row: Row): seq<Violation> {
    (if Prev(row) != expectedPrev then [PrevMismatch(seqNo, expectedPrev, Prev(row))] else [])
    + (if row.checksum != h(Prev(row) + row.payload)
       then [ChecksumMismatch(seqNo, h(Prev(row) + row.payload), row.checksum)] else [])
  }

  function Violations(h: Hash, rows: seq<Row>): seq<Violation> {
    if rows == [] then []
    else
      var n := |rows| - 1;
      Violations(h, rows[..n]) + RowViolations(h, n, LastChecksum(rows[..n]), rows[n])
  }

  /** Verification finds nothing exactly when every row is linked. */
  lemma {:induction false} CleanIffChained(h: Hash, rows: seq<Row>)
    ensures Violations(h, rows) == [] <==> Chained(h, rows)
  {
    if rows != [] {
      var n := |rows| - 1;
      CleanIffChained(h, rows[..n]);
      ChainedSplit(h, rows);
      RowCleanIffLinked(h, rows, n);
    }
  }

  lemma ChainedSplit(h: Hash, rows: seq<Row>)
    requires rows != []
    ensures Chained(h, rows) <==> Chained(h, rows[..|rows| - 1]) && Linked(h, rows, |rows| - 1)
  {
    var n := |rows| - 1;
    forall i | 0 <= i < n ensures Linked(h, rows, i) <==> Linked(h, rows[..n], i) {
      assert rows[..n][..i] == rows[..i];
    }
  }

  lemma ViolationsSoFar(h: Hash, rows: seq<Row>, i: nat)
    requires i < |rows|
    ensures Violations(h, rows[..i + 1]) == Violations(h, rows[..i]) + RowViolations(h, i, LastChecksum(rows[..i]), rows[i])
    ensures LastChecksum(rows[..i + 1]) == rows[i].checksum
  {
    assert rows[..i + 1][..i] == rows[..i];
  }

  ghost predicate StandsFor(h: Hash, rows: seq<Row>, v: Violation)
    requires v.seqNo < |rows|
  {
    var i := v.seqNo;
    && v.got != v.expected
    && match v
       case PrevMismatch(_, expected, got) => got == Prev(rows[i]) && expected == if i == 0 then "" else rows[i - 1].checksum
       case ChecksumMismatch(_, expected, got) => got == rows[i].checksum && expected == h(Prev(rows[i]) + rows[i].payload)
  }

  /**
   A violation of the first kind stands for a row whose previous checksum is not the checksum of
   the row before, one of the second kind for a row whose checksum is not its own; there are no others.
   */
  lemma {:induction false} ViolationsMean(h: Hash, rows: seq<Row>, v: Violation)
    ensures v in Violations(h, rows) <==> v.seqNo < |rows| && StandsFor(h, rows, v)
  {
    if rows != [] {
      var n := |rows| - 1;
      hide RowViolations, StandsFor, LastChecksum;
      ViolationsMean(h, rows[..n], v);
      RowViolationsMean(h, rows, n, v);
      if v.seqNo < n {
        StandsForBefore(h, rows, n, v);
      }
    }
  }

  lemma RowViolationsMean(h: Hash, rows: seq<Row>, n: nat, v: Violation)
    requires n < |rows|
    ensures v in RowViolations(h, n, LastChecksum(rows[..n]), rows[n]) <==> v.seqNo == n && StandsFor(h, rows, v)
  {
  }

  lemma StandsForBefore(h: Hash, rows: seq<Row>, n: nat, v: Violation)
    requires v.seqNo < n <= |rows|
    ensures StandsFor(h, rows[..n], v) <==> StandsFor(h, rows, v)
  {
  }

  /** Violations come row by row, that of the first kind before that of the second, and none twice. */
  ghost predicate Ahead(v: Violation, w: Violation) {
    v.seqNo < w.seqNo || (v.seqNo == w.seqNo && v.PrevMismatch? && w.ChecksumMismatch?)
  }

  lemma {:induction false} ViolationsInOrder(h: Hash, rows: seq<Row>)
    ensures forall i, j :: 0 <= i < j < |Violations(h, rows)| ==> Ahead(Violations(h, rows)[i], Violations(h, rows)[j])
  {
    if rows != [] {
      var n := |rows| - 1;
      ViolationsInOrder(h, rows[..n]);
      forall v | v in Violations(h, rows[..n]) ensures v.seqNo < n {
        ViolationsMean(h, rows[..n], v);
      }
    }
  }

  lemma RowCleanIffLinked(h: Hash, rows: seq<Row>, n: nat)
    requires n < |rows|
    ensures RowViolations(h, n, LastChecksum(rows[..n]), rows[n]) == [] <==> Linked(h, rows, n)
  {
  }

  lemma ChainedPrefix(h: Hash, rows: seq<Row>, n: nat)
    requires Chained(h, rows) && n <= |rows|
    ensures Chained(h, rows[..n])
  {
    forall i | 0 <= i < n ensures Linked(h, rows[..n], i) {
      assert Linked(h, rows, i) && rows[..n][..i] == rows[..i];
    }
  }

  /** An appended row keeps the chain if and only if it was made from the checksum of the last row. */
  lemma AppendKeepsChain(h: Hash, rows: seq<Row>, last: string, t: string, e: string, n: string, payload: string)
    requires Chained(h, rows)
    ensures Chained(h, rows + [NewRow(h, last, t, e, n, payload)]) <==> last == LastChecksum(rows)
  {
    var after := rows + [NewRow(h, last, t, e, n, payload)];
    forall i | 0 <= i < |rows| ensures Linked(h, after, i) {
      assert Linked(h, rows, i) && after[..i] == rows[..i];
    }
    assert after[..|rows|] == rows;
    assert Linked(h, after, |rows|) <==> last == LastChecksum(rows);
  }

  // ---------- Runs ----------

  /** The payload of an append, if it could be encoded, and whether the insert went through. */
  datatype Step = AppendStep(eventType: string, entityID: string, nodeID: string, payload: Option<string>, inserted: bool)
                | Reopen

  datatype LogState = LogState(rows: seq<Row>, last: string)

  function Next(h: Hash, s: LogState, step: Step): LogState {
    match step
    case Reopen => s.(last := LastChecksum(s.rows))
    case AppendStep(t, e, n, payload, inserted) =>
      if payload.None? || !inserted then s
      else
        var row := NewRow(h, s.last, t, e, n, payload.value);
        LogState(s.rows + [row], row.checksum)
  }

  function Run(h: Hash, steps: seq<Step>): LogState {
    if steps == [] then LogState([], "")
    else Next(h, Run(h, steps[..|steps| - 1]), steps[|steps| - 1])
  }

  function AcceptedBy(step: Step): seq<string> {
    if step.AppendStep? && step.payload.Some? && step.inserted then [step.payload.value] else []
  }

  /** The payloads that were accepted, in order. */
  function Accepted(steps: seq<Step>): seq<string> {
    if steps == [] then []
    else Accepted(steps[..|steps| - 1]) + AcceptedBy(steps[|steps| - 1])
  }

  lemma NextKeepsChain(h: Hash, s: LogState, step: Step)
    requires Chained(h, s.rows) && s.last == LastChecksum(s.rows)
    ensures var r := Next(h, s, step);
      && Chained(h, r.rows) && r.last == LastChecksum(r.rows)
      && Payloads(r.rows) == Payloads(s.rows) + AcceptedBy(step)
  {
    hide Chained;
    if step.AppendStep? && step.payload.Some? && step.inserted {
      AppendKeepsChain(h, s.rows, s.last, step.eventType, step.entityID, step.nodeID, step.payload.value);
    }
  }

  /** However inserts fail and the log is reopened, it verifies cleanly and holds what was accepted. */
  lemma {:induction false} RunVerifies(h: Hash, steps: seq<Step>)
    ensures var s := Run(h, steps);
      && Violations(h, s.rows) == []
      && Payloads(s.rows) == Accepted(steps)
      && s.last == LastChecksum(s.rows)
  {
    if steps != [] {
      var n := |steps| - 1;
      var s := Run(h, steps[..n]);
      RunVerifies(h, steps[..n]);
      CleanIffChained(h, s.rows);
      NextKeepsChain(h, s, steps[n]);
      CleanIffChained(h, Next(h, s, steps[n]).rows);
    }
  }

  // ---------- What a checksum commits to ----------

  ghost predicate Collision(h: Hash, x: string, y: string) {
    x != y && h(x) == h(y)
  }

  ghost predicate Digests64(h: Hash) {
    forall x :: |h(x)| == 64
  }

  predicate Hex(c: char) {
    '0' <= c <= '9' || 'a' <= c <= 'f'
  }

  predicate HexString(s: string) {
    forall i :: 0 <= i < |s| ==> Hex(s[i])
  }

  ghost predicate HexDigests(h: Hash) {
    Digests64(h) && forall x :: HexString(h(x))
  }

  /** The columns the chain is about. */
  ghost predicate SameChain(r1: seq<Row>, r2: seq<Row>) {
    && |r1| == |r2|
    && forall i :: 0 <= i < |r1| ==>
         r1[i].payload == r2[i].payload && r1[i].checksum == r2[i].checksum && Prev(r1[i]) == Prev(r2[i])
  }

  lemma SplitEqual(p: string, x: string, q: string, y: string)
    requires p + x == q + y && |p| == |q|
    ensures p == q && x == y
  {
    assert p == (p + x)[..|p|] && q == (q + y)[..|q|];
    assert x == (p + x)[|p|..] && y == (q + y)[|q|..];
  }

  /** Two clean logs of one length with the same last checksum are the same, or yield a collision. */
  lemma {:induction false} LastChecksumCommits(h: Hash, r1: seq<Row>, r2: seq<Row>) returns (x: string, y: string)
    requires Digests64(h) && Chained(h, r1) && Chained(h, r2)
    requires |r1| == |r2| && LastChecksum(r1) == LastChecksum(r2)
    ensures SameChain(r1, r2) || Collision(h, x, y)
    decreases |r1|
  {
    x, y := "", "";
    if r1 != [] {
      var n := |r1| - 1;
      assert Linked(h, r1, n) && Linked(h, r2, n);
      x, y := Prev(r1[n]) + r1[n].payload, Prev(r2[n]) + r2[n].payload;
      if x == y {
        if n > 0 {
          assert Linked(h, r1, n - 1) && Linked(h, r2, n - 1);
          assert r1[..n][n - 1] == r1[n - 1] && r2[..n][n - 1] == r2[n - 1];
        }
        SplitEqual(Prev(r1[n]), r1[n].payload, Prev(r2[n]), r2[n].payload);
        ChainedPrefix(h, r1, n);
        ChainedPrefix(h, r2, n);
        x, y := LastChecksumCommits(h, r1[..n], r2[..n]);
      }
    }
  }

  function PlainRow(h: Hash, last: string, payload: string): Row {
    NewRow(h, last, "", "", "", payload)
  }

  /**
   The length matters: for every hash function and all p and q, a table with the one payload h(p)
   followed by q passes verification and ends in the same checksum as the table of p and q. This
   is about tables as they are read: `Append` writes JSON texts only.
   */
  lemma LengthMatters(h: Hash, p: string, q: string)
    ensures var long := [PlainRow(h, "", p), PlainRow(h, h("" + p), q)];
      var short := [PlainRow(h, "", h("" + p) + q)];
      && Violations(h, long) == [] && Violations(h, short) == []
      && LastChecksum(long) == LastChecksum(short)
  {
    hide Violations, Chained;
    OneRow(h, p);
    OneRow(h, h("" + p) + q);
    TwoRows(h, PlainRow(h, "", p), q);
    Checked(h, [PlainRow(h, "", h("" + p) + q)]);
    Checked(h, [PlainRow(h, "", p), PlainRow(h, h("" + p), q)]);
    assert "" + (h("" + p) + q) == h("" + p) + q;
  }

  lemma Checked(h: Hash, rows: seq<Row>)
    requires Chained(h, rows)
    ensures Violations(h, rows) == []
  {
    CleanIffChained(h, rows);
  }

  lemma OneRow(h: Hash, payload: string)
    ensures Chained(h, [PlainRow(h, "", payload)])
  {
    AppendKeepsChain(h, [], "", "", "", "", payload);
    assert [] + [PlainRow(h, "", payload)] == [PlainRow(h, "", payload)];
  }

  lemma TwoRows(h: Hash, first: Row, payload: string)
    requires Chained(h, [first])
    ensures Chained(h, [first, PlainRow(h, first.checksum, payload)])
  {
    hide Chained;
    AppendKeepsChain(h, [first], first.checksum, "", "", "", payload);
    assert [first] + [PlainRow(h, first.checksum, payload)] == [first, PlainRow(h, first.checksum, payload)];
  }

  /** Could be read as a digest followed by something, as only a JSON number or bare digits could. */
  predicate StartsLikeDigest(s: string) {
    |s| >= 64 && HexString(s[..64])
  }

  /** Without a first payload of that shape the last checksum commits to the length as well. */
  lemma {:induction false} LastChecksumCommitsAnyLength(h: Hash, r1: seq<Row>, r2: seq<Row>) returns (x: string, y: string)
    requires HexDigests(h) && Chained(h, r1) && Chained(h, r2)
    requires r1 != [] ==> !StartsLikeDigest(r1[0].payload)
    requires r2 != [] ==> !StartsLikeDigest(r2[0].payload)
    requires LastChecksum(r1) == LastChecksum(r2)
    ensures SameChain(r1, r2) || Collision(h, x, y)
    decreases |r1|
  {
    x, y := "", "";
    if r1 != [] && r2 != [] {
      var m, n := |r1| - 1, |r2| - 1;
      assert Linked(h, r1, m) && Linked(h, r2, n);
      x, y := Prev(r1[m]) + r1[m].payload, Prev(r2[n]) + r2[n].payload;
      if x == y {
        PrevIsDigest(h, r1);
        PrevIsDigest(h, r2);
        if m > 0 { DigestInFront(Prev(r1[m]), r1[m].payload); } else { assert x == r1[0].payload; }
        if n > 0 { DigestInFront(Prev(r2[n]), r2[n].payload); } else { assert y == r2[0].payload; }
        assert (m == 0) == (n == 0);
        SplitEqual(Prev(r1[m]), r1[m].payload, Prev(r2[n]), r2[n].payload);
        ChainedPrefix(h, r1, m);
        ChainedPrefix(h, r2, n);
        x, y := LastChecksumCommitsAnyLength(h, r1[..m], r2[..n]);
      }
    } else {
      NonEmptyDigest(h, r1);
      NonEmptyDigest(h, r2);
    }
  }

  lemma DigestInFront(p: string, x: string)
    requires |p| == 64 && HexString(p)
    ensures StartsLikeDigest(p + x)
  {
    assert (p + x)[..64] == p;
  }

  lemma NonEmptyDigest(h: Hash, rows: seq<Row>)
    requires Digests64(h) && Chained(h, rows)
    ensures rows != [] ==> |LastChecksum(rows)| == 64
  {
    if rows != [] {
      assert Linked(h, rows, |rows| - 1);
    }
  }

  lemma PrevIsDigest(h: Hash, rows: seq<Row>)
    requires HexDigests(h) && Chained(h, rows) && rows != []
    ensures var p := Prev(rows[|rows| - 1]);
      if |rows| == 1 then p == "" else |p| == 64 && HexString(p)
  {
    var n := |rows| - 1;
    assert Linked(h, rows, n);
    if n > 0 {
      assert Linked(h, rows, n - 1);
      assert rows[..n][n - 1] == rows[n - 1];
    }
  }

  /** Changing one payload of a clean log goes unreported if and only if the two hash inputs collide. */
  lemma EditDetected(h: Hash, rows: seq<Row>, i: nat, payload: string)
    requires Chained(h, rows) && i < |rows| && payload != rows[i].payload
    ensures Violations(h, rows[i := rows[i].(payload := payload)]) == []
       <==> Collision(h, Prev(rows[i]) + rows[i].payload, Prev(rows[i]) + payload)
  {
    var after := rows[i := rows[i].(payload := payload)];
    CleanIffChained(h, after);
    if Prev(rows[i]) + rows[i].payload == Prev(rows[i]) + payload {
      SplitEqual(Prev(rows[i]), rows[i].payload, Prev(rows[i]), payload);
      assert false;
    }
    forall k | 0 <= k < |rows| && k != i ensures Linked(h, after, k) {
      assert Linked(h, rows, k) && LastChecksum(after[..k]) == LastChecksum(rows[..k]);
    }
    assert Linked(h, rows, i) && after[..i] == rows[..i];
    assert Linked(h, after, i) <==> h(Prev(rows[i]) + payload) == h(Prev(rows[i]) + rows[i].payload);
  }

  /** Dropping rows `i` to `j` from inside a clean log goes unreported if and only if the checksums on both sides agree. */
  lemma GapDetected(h: Hash, rows: seq<Row>, i: nat, j: nat)
    requires Chained(h, rows) && i < j < |rows|
    ensures Violations(h, rows[..i] + rows[j..]) == [] <==> LastChecksum(rows[..i]) == LastChecksum(rows[..j])
  {
    hide Linked, Violations;
    var after := rows[..i] + rows[j..];
    CleanIffChained(h, after);
    forall k | 0 <= k < |after| && k != i ensures Linked(h, after, k) {
      BesideGap(h, rows, i, j, k);
    }
    AtGap(h, rows, i, j);
  }

  lemma BesideGap(h: Hash, rows: seq<Row>, i: nat, j: nat, k: nat)
    requires Chained(h, rows) && i < j < |rows| && k < i + (|rows| - j) && k != i
    ensures Linked(h, rows[..i] + rows[j..], k)
  {
    var after := rows[..i] + rows[j..];
    var m := if k < i then k else j + (k - i);
    assert Linked(h, rows, m) && after[k] == rows[m];
    if k < i { assert after[..k] == rows[..k]; } else { assert after[k - 1] == rows[m - 1]; }
  }

  lemma AtGap(h: Hash, rows: seq<Row>, i: nat, j: nat)
    requires Chained(h, rows) && i < j < |rows|
    ensures Linked(h, rows[..i] + rows[j..], i) <==> LastChecksum(rows[..i]) == LastChecksum(rows[..j])
  {
    var after := rows[..i] + rows[j..];
    assert Linked(h, rows, j) && after[i] == rows[j] && after[..i] == rows[..i];
  }

  /** The verdict depends on payloads and checksums only; the other columns are not covered. */
  lemma {:induction false} OtherColumnsUncovered(h: Hash, r1: seq<Row>, r2: seq<Row>)
    requires SameChain(r1, r2)
    ensures Violations(h, r1) == Violations(h, r2)
  {
    if r1 != [] {
      var n := |r1| - 1;
      OtherColumnsUncovered(h, r1[..n], r2[..n]);
      assert LastChecksum(r1[..n]) == LastChecksum(r2[..n]);
    }
  }

  // ---------- The log ----------

  class EventTable {
    var rows: seq<Row>

    constructor ()
      ensures rows == []
    {
      rows := [];
    }
  }

  class EventLog {
    const table: EventTable
    const hash: Hash
    var lastChecksum: string

    ghost function State(): LogState
      reads this, table
    {
      LogState(table.rows, lastChecksum)
    }

    /** Opening a log, again or for the first time. */
    constructor (table: EventTable, hash: Hash)
      ensures this.table == table && this.hash == hash
      ensures lastChecksum == LastChecksum(table.rows)
    {
      this.table, this.hash := table, hash;
      lastChecksum := if |table.rows| > 0 then table.rows[|table.rows| - 1].checksum else "";
    }

    /** `marshalled` is the encoded payload, if encoding succeeds; `inserted` is what the database answers. */
    method Append(eventType: string, entityID: string, nodeID: string, marshalled: Option<string>, inserted: bool)
      returns (r: Outcome)
      modifies this`lastChecksum, table
      ensures r == if marshalled.None? then Fail(MarshalFailed) else if !inserted then Fail(InsertFailed) else Ok
      ensures State() == Next(hash, old(State()), AppendStep(eventType, entityID, nodeID, marshalled, inserted))
      ensures r.Ok? ==> |table.rows| == |old(table.rows)| + 1
      ensures r.Ok? ==> var row := table.rows[|table.rows| - 1];
        && row.eventType == eventType && row.entityID == entityID && row.nodeID == nodeID && row.payload == marshalled.value
        && row.prevChecksum == Some(old(lastChecksum)) && row.checksum == hash(old(lastChecksum) + marshalled.value) == lastChecksum
      ensures r.Ok? && old(Chained(hash, table.rows)) ==>
        (Chained(hash, table.rows) <==> old(lastChecksum) == LastChecksum(old(table.rows)))
    {
      if marshalled.None? {
        return Fail(MarshalFailed);
      }
      var checksumInput := lastChecksum + marshalled.value;
      var checksum := hash(checksumInput);
      if !inserted {
        return Fail(InsertFailed);
      }
      if Chained(hash, table.rows) {
        AppendKeepsChain(hash, table.rows, lastChecksum, eventType, entityID, nodeID, marshalled.value);
      }
      table.rows := table.rows + [Row(eventType, entityID, nodeID, marshalled.value, checksum, Some(lastChecksum))];
      lastChecksum := checksum;
      return Ok;
    }

    /** `queried` is whether the database answers the query. */
    method VerifyIntegrity(queried: bool) returns (verified: nat, violations: seq<Violation>, err: bool)
      ensures err <==> !queried
      ensures err ==> verified == 0 && violations == []
      ensures !err ==> verified == |table.rows| && violations == Violations(hash, table.rows)
      ensures !err ==> (violations == [] <==> Chained(hash, table.rows))
    {
      verified, violations, err := 0, [], !queried;
      if !queried {
        return;
      }
      var prevChecksum := "";
      var rows := table.rows;
      for i := 0 to |rows|
        invariant verified == i && violations == Violations(hash, rows[..i])
        invariant prevChecksum == LastChecksum(rows[..i])
      {
        ViolationsSoFar(hash, rows, i);
        var prevCS := if rows[i].prevChecksum.Some? then rows[i].prevChecksum.value else "";
        if prevCS != prevChecksum {
          violations := violations + [PrevMismatch(i, prevChecksum, prevCS)];
        }
        var expected := hash(prevCS + rows[i].payload);
        if rows[i].checksum != expected {
          violations := violations + [ChecksumMismatch(i, expected, rows[i].checksum)];
        }
        prevChecksum := rows[i].checksum;
        verified := verified + 1;
      }
      assert rows[..|rows|] == rows;
      CleanIffChained(hash, rows);
    }
  }
}
