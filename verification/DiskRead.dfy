/**
 * Reading a file together with the stat it belongs to, while another program may be
 * writing it. The disk is a history of states; each system call of the read sees the
 * state at its own instant, and a read that spans a change may return anything.
 */
module DiskRead {
  import opened Wrappers

  type Bytes = seq<bv8>

  datatype FileStat = FileStat(mtime: Option<int>, size: nat)

  datatype State = Absent | Present(bytes: Bytes, stat: FileStat)

  function StatOf(s: State): Option<FileStat> {
    if s.Present? then Some(s.stat) else None
  }

  function ContentOf(s: State): Option<Bytes> {
    if s.Present? then Some(s.bytes) else None
  }

  /**
   * A history and the instants at which the calls of one load happen. Call 0 is the first
   * stat; attempt `n` asks whether the file exists (call 4n-3), opens it (4n-2), reads to
   * the end (4n-1) and stats again (4n). `read(n)` is what attempt `n` reads, None for an
   * I/O error.
   */
  datatype Disk = Disk(state: nat -> State, at: nat -> nat, read: nat -> Option<Bytes>)

  ghost predicate CallsInOrder(d: Disk) { forall i: nat, j: nat :: i <= j ==> d.at(i) <= d.at(j) }

  /** A write moves the stat along with the bytes. */
  ghost predicate StatsSeeWrites(d: Disk) {
    forall t: nat, u: nat :: u == t + 1 && StatOf(d.state(t)) == StatOf(d.state(u)) ==> d.state(t) == d.state(u)
  }

  /** A stat, once left, never comes back; that there is no file may. */
  ghost predicate StatsNeverRecur(d: Disk) {
    forall t: nat, u: nat, v: nat ::
      t <= u <= v && StatOf(d.state(t)) == StatOf(d.state(v)) != None ==> StatOf(d.state(u)) == StatOf(d.state(t))
  }

  /** A read during which the file does not change returns the file. */
  ghost predicate QuietReadsAreWhole(d: Disk) {
    forall n: nat | n >= 1 && d.read(n).Some? :: QuietReadIsWhole(d, n)
  }

  ghost predicate QuietReadIsWhole(d: Disk, n: nat)
    requires n >= 1
  {
    var open := d.state(d.at(4 * n - 2));
    open.Present? && Quiet(d, d.at(4 * n - 2), d.at(4 * n - 1)) ==> d.read(n) == Some(open.bytes)
  }

  ghost predicate Quiet(d: Disk, t: nat, u: nat) {
    forall k: nat | t <= k <= u :: d.state(k) == d.state(t)
  }

  ghost predicate Lawful(d: Disk) {
    CallsInOrder(d) && StatsSeeWrites(d) && StatsNeverRecur(d) && QuietReadsAreWhole(d)
  }

  function StatCall(d: Disk, call: nat): Option<FileStat> { StatOf(d.state(d.at(call))) }

  const RETRIES: nat := 3

  /** What attempt `n` loads: nothing where no file exists, else the read, unless opening or reading fails. */
  function Attempt(d: Disk, n: nat): Result<Option<Bytes>, ()>
    requires n >= 1
  {
    if d.state(d.at(4 * n - 3)).Absent? then Ok(None)
    else if d.state(d.at(4 * n - 2)).Absent? || d.read(n).None? then Err(())
    else Ok(d.read(n))
  }

  /** Every attempt before `n` saw the stat move under it. */
  ghost predicate MovedBefore(d: Disk, n: nat) {
    forall m: nat | 1 <= m < n :: StatCall(d, 4 * m) != StatCall(d, 4 * m - 4)
  }

  /** The load settles at attempt `n`, with these bytes and this baseline. */
  ghost predicate Settles(d: Disk, n: nat, bytes: Option<Bytes>, disk: Option<FileStat>) {
    1 <= n <= RETRIES && MovedBefore(d, n) && Attempt(d, n) == Ok(bytes) && disk == StatCall(d, 4 * n - 4)
    && (n == RETRIES || StatCall(d, 4 * n) == disk)
  }

  ghost predicate Fails(d: Disk, n: nat) { 1 <= n <= RETRIES && MovedBefore(d, n) && Attempt(d, n).Err? }

  method ReadConsistent(d: Disk) returns (r: Result<(Option<Bytes>, Option<FileStat>), ()>)
    ensures r.Ok? ==> exists n: nat :: Settles(d, n, r.value.0, r.value.1)
    ensures r.Err? ==> exists n: nat :: Fails(d, n)
  {
    var before := StatOf(d.state(d.at(0)));
    for attempt := 1 to RETRIES + 1
      invariant before == StatCall(d, 4 * attempt - 4)
      invariant MovedBefore(d, attempt)
      invariant attempt <= RETRIES
    {
      var bytes := None;
      if d.state(d.at(4 * attempt - 3)).Present? {
        if d.state(d.at(4 * attempt - 2)).Absent? || d.read(attempt).None? {
          assert Fails(d, attempt);
          return Err(());
        }
        bytes := d.read(attempt);
      }
      var after := StatOf(d.state(d.at(4 * attempt)));
      if after == before || attempt == RETRIES {
        assert Settles(d, attempt, bytes, before);
        return Ok((bytes, before));
      }
      before := after;
    }
    assert false;
  }

  datatype DiskChange = Unchanged | Changed | Vanished

  /** How the file's stat now compares with the baseline of the load. */
  function Classify(disk: Option<FileStat>, now: Option<FileStat>): DiskChange {
    if now == disk then Unchanged else if now.None? then Vanished else Changed
  }

  /** A check tells a file that is gone from one that is there but is not the one loaded, or was not there to load. */
  lemma ClassifyMeans(disk: Option<FileStat>, now: Option<FileStat>)
    ensures Classify(disk, now) == Unchanged <==> disk == now
    ensures Classify(disk, now) == Vanished <==> now.None? && disk.Some?
    ensures Classify(disk, now) == Changed <==> now.Some? && (disk.None? || disk.value != now.value)
  {
  }

  /** Between two sightings of one stat the file is one and the same. */
  lemma {:induction false} SameStatSameFile(d: Disk, t: nat, u: nat, v: nat)
    requires StatsSeeWrites(d) && StatsNeverRecur(d)
    requires t <= u <= v && StatOf(d.state(t)) == StatOf(d.state(v)) != None
    ensures d.state(u) == d.state(t)
    decreases u
  {
    if t < u { SameStatSameFile(d, t, u - 1, v); }
  }

  /**
   * Whenever the load's baseline later reads as unchanged, the loaded bytes are the
   * file's, exactly when the baseline is an existing file's or nothing was loaded.
   */
  lemma UnchangedMeansLoaded(d: Disk, n: nat, bytes: Option<Bytes>, disk: Option<FileStat>, t: nat)
    requires Lawful(d) && Settles(d, n, bytes, disk) && d.at(4 * n) <= t
    requires Classify(disk, StatOf(d.state(t))) == Unchanged
    ensures bytes == ContentOf(d.state(t)) <==> disk.Some? || bytes.None?
  {
    if disk.Some? {
      var (start, open, done) := (d.at(4 * n - 4), d.at(4 * n - 2), d.at(4 * n - 1));
      assert start <= d.at(4 * n - 3) <= open <= done <= d.at(4 * n);
      forall k: nat | start <= k <= t ensures d.state(k) == d.state(start) {
        SameStatSameFile(d, start, k, t);
      }
      assert Quiet(d, open, done);
      assert QuietReadIsWhole(d, n);
    }
  }

  /** A load that ran out of attempts while the file moved can never later read as unchanged. */
  lemma ExhaustedReadsAsChanged(d: Disk, bytes: Option<Bytes>, disk: Option<FileStat>, t: nat)
    requires Lawful(d) && Settles(d, RETRIES, bytes, disk) && StatCall(d, 4 * RETRIES) != disk
    requires d.at(4 * RETRIES) <= t && disk.Some?
    ensures Classify(disk, StatOf(d.state(t))) != Unchanged
  {
    assert d.at(4 * RETRIES - 4) <= d.at(4 * RETRIES);
  }

  /** A file that is there at call 4 and, rewritten, at calls 9 to 12. */
  function Flicker(t: nat): State {
    if t == 4 then Present([7], FileStat(Some(1), 1))
    else if 9 <= t <= 12 then Present([7], FileStat(Some(2), 1))
    else Absent
  }

  function FlickeringDisk(): Disk { Disk((t: nat) => Flicker(t), (i: nat) => i, (n: nat) => Some([7])) }

  lemma FlickerNeverRecurs()
    ensures StatsNeverRecur(FlickeringDisk())
  {
    forall t: nat, u: nat, v: nat | t <= u <= v && StatOf(Flicker(t)) == StatOf(Flicker(v)) != None
      ensures StatOf(Flicker(u)) == StatOf(Flicker(t))
    {
      assert t == v == 4 || (9 <= t && v <= 12);
    }
  }

  lemma FlickerLawful()
    ensures Lawful(FlickeringDisk())
  {
    FlickerNeverRecurs();
    assert QuietReadsAreWhole(FlickeringDisk());
  }

  lemma FlickerMoves()
    ensures MovedBefore(FlickeringDisk(), 3)
  {
    var d := FlickeringDisk();
    forall m: nat | 1 <= m < 3 ensures StatCall(d, 4 * m) != StatCall(d, 4 * m - 4) {
      assert m == 1 || m == 2;
      assert Flicker(0) == Absent && Flicker(8) == Absent && Flicker(4).Present?;
    }
  }

  /**
   * Without an existing-file baseline it can: the file appears between the third
   * attempt's baseline and its read, and is gone again afterwards. The load holds its
   * bytes, the budget is spent, and the check reports no change.
   */
  lemma ExhaustedWithoutBaseline()
    ensures var d := FlickeringDisk();
      Lawful(d) && Settles(d, RETRIES, Some([7]), None) && StatCall(d, 4 * RETRIES) != None
      && d.at(4 * RETRIES) <= 13 && Classify(None, StatOf(d.state(13))) == Unchanged
  {
    FlickerLawful();
    FlickerMoves();
  }
}
