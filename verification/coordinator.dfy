/** The coordinator: the plan that splits a log file into one byte range per
    worker, and the re-plan after a worker fails. `os.path.getsize` is read
    from a snapshot of file sizes and `assign_task` becomes one record in the
    returned plan. */
module Coordinator {
  import opened Exceptions

  type WorkerId = string
  type Path = string

  /** The sizes `os.path.getsize` would report; a path outside the map does not exist. */
  type FileSystem = map<Path, nat>

  /** The value stored for a worker; `filepath` is the dict key the failure
      handler reads, absent when the worker was registered without one. */
  datatype WorkerData = WorkerData(filepath: Option<Path>)

  datatype Entry = Entry(id: WorkerId, data: WorkerData)

  /** `self.workers`: a dict, kept as its entries in insertion order. */
  type Registry = seq<Entry>

  /** One call of `assign_task(worker_id, filepath, start, chunk_size)`. */
  datatype Assignment = Assignment(worker: WorkerId, path: Path, start: nat, size: nat)

  /** The worker ids in iteration order. */
  function Ids(reg: Registry): (ids: seq<WorkerId>)
    ensures |ids| == |reg|
    ensures forall k :: 0 <= k < |reg| ==> ids[k] == reg[k].id
  {
    seq(|reg|, k requires 0 <= k < |reg| => reg[k].id)
  }

  /** No id occurs twice, as in any Python dict. */
  predicate Distinct(ids: seq<WorkerId>) {
    forall i, j :: 0 <= i < j < |ids| ==> ids[i] != ids[j]
  }

  /** `self.workers.get(id)`. */
  function Lookup(reg: Registry, id: WorkerId): (r: Option<WorkerData>)
    ensures r.None? <==> id !in Ids(reg)
    ensures r.Some? ==> Entry(id, r.value) in reg
  {
    if |reg| == 0 then None
    else if reg[0].id == id then Some(reg[0].data)
    else
      assert Ids(reg) == [reg[0].id] + Ids(reg[1..]);
      Lookup(reg[1..], id)
  }

  /** The registry without the entries for `id`, the others in their order. */
  function Remove(reg: Registry, id: WorkerId): (r: Registry)
    ensures |r| <= |reg|
    ensures forall e :: e in r <==> e in reg && e.id != id
  {
    if |reg| == 0 then []
    else if reg[0].id == id then Remove(reg[1..], id)
    else [reg[0]] + Remove(reg[1..], id)
  }

  /** What `self.workers.pop(worker_id)` returns together with the dict it leaves. */
  datatype Popped = Popped(data: WorkerData, rest: Registry)

  /** `self.workers.pop(worker_id)`: KeyError when the id is not registered. */
  function Pop(reg: Registry, id: WorkerId): (r: Result<Popped>)
    ensures r.Raise? <==> id !in Ids(reg)
    ensures r.Raise? ==> r.error == KeyError(id)
    ensures r.Ok? ==> Entry(id, r.value.data) in reg && id !in Ids(r.value.rest)
    ensures r.Ok? ==> r.value.rest == Remove(reg, id)
  {
    match Lookup(reg, id)
    case None => Raise(KeyError(id))
    case Some(data) =>
      RemoveDrops(reg, id);
      Ok(Popped(data, Remove(reg, id)))
  }

  /** After removing `id` it is no longer a key. */
  lemma RemoveDrops(reg: Registry, id: WorkerId)
    ensures id !in Ids(Remove(reg, id))
  {
    var r := Remove(reg, id);
    forall k | 0 <= k < |r| ensures Ids(r)[k] != id {
      assert r[k] in r;
    }
  }

  /** Removing one key leaves every other key mapped as before. */
  lemma {:induction false} RemoveKeepsOthers(reg: Registry, id: WorkerId, other: WorkerId)
    requires other != id
    ensures Lookup(Remove(reg, id), other) == Lookup(reg, other)
    decreases |reg|
  {
    if |reg| > 0 {
      RemoveKeepsOthers(reg[1..], id, other);
      if reg[0].id != id {
        var tail := Remove(reg[1..], id);
        assert Remove(reg, id) == [reg[0]] + tail;
        assert ([reg[0]] + tail)[1..] == tail;
      }
    }
  }

  /** Removing a key that is not there changes nothing. */
  lemma {:induction false} RemoveAbsent(reg: Registry, id: WorkerId)
    requires id !in Ids(reg)
    ensures Remove(reg, id) == reg
    decreases |reg|
  {
    if |reg| > 0 {
      assert Ids(reg) == [reg[0].id] + Ids(reg[1..]);
      assert reg[0].id != id;
      RemoveAbsent(reg[1..], id);
      assert Remove(reg, id) == [reg[0]] + reg[1..];
      assert [reg[0]] + reg[1..] == reg;
    }
  }

  /** The first key of a dict does not recur, and the rest is a dict too. */
  lemma DistinctTail(reg: Registry)
    requires |reg| > 0 && Distinct(Ids(reg))
    ensures Distinct(Ids(reg[1..]))
    ensures reg[0].id !in Ids(reg[1..])
  {
    forall i, j | 0 <= i < j < |reg| - 1 ensures Ids(reg[1..])[i] != Ids(reg[1..])[j] {
      assert Ids(reg)[i + 1] != Ids(reg)[j + 1];
    }
    forall k | 0 <= k < |reg| - 1 ensures Ids(reg[1..])[k] != reg[0].id {
      assert Ids(reg)[k + 1] != Ids(reg)[0];
    }
  }

  /** A key not among the remaining keys can go in front of them. */
  lemma DistinctCons(e: Entry, tail: Registry)
    requires Distinct(Ids(tail)) && e.id !in Ids(tail)
    ensures Distinct(Ids([e] + tail))
  {
    var ids := Ids([e] + tail);
    forall i, j | 0 <= i < j < |ids| ensures ids[i] != ids[j] {
      assert ids[j] == Ids(tail)[j - 1];
      if i > 0 {
        assert ids[i] == Ids(tail)[i - 1];
      }
    }
  }

  /** Every key left after a removal was a key before. */
  lemma RemovedIds(reg: Registry, id: WorkerId, other: WorkerId)
    requires other in Ids(Remove(reg, id))
    ensures other in Ids(reg)
  {
    var r := Remove(reg, id);
    var k :| 0 <= k < |r| && Ids(r)[k] == other;
    assert r[k] in reg;
    var m :| 0 <= m < |reg| && reg[m] == r[k];
    assert Ids(reg)[m] == other;
  }

  /** Removing a present key from a dict keeps the ids distinct and leaves
      one entry fewer. */
  lemma {:induction false} RemovePresent(reg: Registry, id: WorkerId)
    requires Distinct(Ids(reg)) && id in Ids(reg)
    ensures Distinct(Ids(Remove(reg, id)))
    ensures |Remove(reg, id)| == |reg| - 1
    decreases |reg|
  {
    DistinctTail(reg);
    if reg[0].id == id {
      RemoveAbsent(reg[1..], id);
    } else {
      assert Ids(reg) == [reg[0].id] + Ids(reg[1..]);
      RemovePresent(reg[1..], id);
      var tail := Remove(reg[1..], id);
      assert Remove(reg, id) == [reg[0]] + tail;
      if reg[0].id in Ids(tail) {
        RemovedIds(reg[1..], id, reg[0].id);
      }
      DistinctCons(reg[0], tail);
    }
  }

  /** Popping the key at position `i` of a dict leaves the entries before and
      after it, in their order. */
  lemma {:induction false} RemoveAt(reg: Registry, id: WorkerId, i: nat)
    requires Distinct(Ids(reg)) && i < |reg| && reg[i].id == id
    ensures Remove(reg, id) == reg[..i] + reg[i + 1..]
    decreases i
  {
    DistinctTail(reg);
    if i == 0 {
      assert reg[0].id == id;
      RemoveAbsent(reg[1..], id);
    } else {
      var tail := reg[1..];
      assert Ids(reg)[0] != Ids(reg)[i];
      assert tail[i - 1] == reg[i];
      RemoveAt(tail, id, i - 1);
      assert Remove(reg, id) == [reg[0]] + Remove(tail, id);
      RemoveAtJoin(reg, i);
    }
  }

  /** The slices of `RemoveAt` one entry further in. */
  lemma RemoveAtJoin(reg: Registry, i: nat)
    requires 0 < i < |reg|
    ensures [reg[0]] + (reg[1..][..i - 1] + reg[1..][i..]) == reg[..i] + reg[i + 1..]
  {
    assert reg[1..][..i - 1] == reg[1..i];
    assert reg[1..][i..] == reg[i + 1..];
    assert [reg[0]] + reg[1..i] == reg[..i];
  }

  /** The assignments made by the loop from offset `start` on, one per id. */
  function PlanFrom(path: Path, ids: seq<WorkerId>, start: nat, chunk: nat): (p: seq<Assignment>)
    ensures |p| == |ids|
    ensures forall k :: 0 <= k < |ids| ==> p[k] == Assignment(ids[k], path, start + k * chunk, chunk)
    decreases |ids|
  {
    if |ids| == 0 then []
    else [Assignment(ids[0], path, start, chunk)] + PlanFrom(path, ids[1..], start + chunk, chunk)
  }

  /** The plan of `distribute_work` once the size is known: `file_size //
      len(self.workers)` bytes per worker, in iteration order, from offset 0.
      With no workers the floor division raises ZeroDivisionError. */
  function PlanChunks(path: Path, fileSize: nat, ids: seq<WorkerId>): (r: Result<seq<Assignment>>)
    ensures r.Raise? <==> |ids| == 0
    ensures r.Raise? ==> r.error == ZeroDivisionError
    ensures r.Ok? ==> Workers(r.value) == ids
  {
    if |ids| == 0 then Raise(ZeroDivisionError)
    else
      var p := PlanFrom(path, ids, 0, fileSize / |ids|);
      assert Workers(p) == ids;
      Ok(p)
  }

  /** The workers of a plan, in the order they are assigned. */
  function Workers(p: seq<Assignment>): (ws: seq<WorkerId>)
    ensures |ws| == |p|
    ensures forall k :: 0 <= k < |p| ==> ws[k] == p[k].worker
  {
    seq(|p|, k requires 0 <= k < |p| => p[k].worker)
  }

  /** Byte `b` lies in the range of assignment `a`. */
  predicate CoveredBy(a: Assignment, b: int) {
    a.start <= b < a.start + a.size
  }

  /** Some assignment of the plan reads byte `b`. */
  predicate Covers(p: seq<Assignment>, b: int) {
    exists k :: 0 <= k < |p| && CoveredBy(p[k], b)
  }

  lemma MulLeft(a: nat, b: nat, c: nat)
    requires a <= b
    ensures a * c <= b * c
  {
  }

  /** A byte before `n * c` lies in one of the first `n` blocks of size `c`. */
  lemma QuotientBelow(b: nat, n: nat, c: nat)
    requires b < n * c
    ensures c > 0 && b / c < n
  {
    if b / c >= n {
      MulLeft(n, b / c, c);
    }
  }

  /** `n * (size // n)` is at most `size`, and misses it by less than `n`. */
  lemma FloorDiv(size: nat, n: nat)
    requires n > 0
    ensures n * (size / n) <= size < n * (size / n) + n
  {
  }

  /** Each assignment of the plan: the k-th worker of the map, offset `k *
      chunk_size`, length `chunk_size`, with `chunk_size = file_size // n`. */
  lemma PlanShape(path: Path, fileSize: nat, ids: seq<WorkerId>, p: seq<Assignment>)
    requires PlanChunks(path, fileSize, ids) == Ok(p)
    ensures |ids| > 0 && |p| == |ids|
    ensures forall k :: 0 <= k < |p| ==> p[k] == Assignment(ids[k], path, k * (fileSize / |ids|), fileSize / |ids|)
  {
  }

  /** The first range starts at 0 and each later one starts where the
      previous one ends. */
  lemma PlanContiguous(path: Path, fileSize: nat, ids: seq<WorkerId>, p: seq<Assignment>)
    requires PlanChunks(path, fileSize, ids) == Ok(p)
    ensures p[0].start == 0
    ensures forall k :: 0 < k < |p| ==> p[k].start == p[k - 1].start + p[k - 1].size
  {
    var c := fileSize / |ids|;
    forall k | 0 < k < |p| ensures p[k].start == p[k - 1].start + p[k - 1].size {
      assert p[k].start == k * c && p[k - 1].start == (k - 1) * c;
    }
  }

  /** Every assigned byte is inside the file, and two different assignments
      never share a byte. */
  lemma PlanDisjointInBounds(path: Path, fileSize: nat, ids: seq<WorkerId>, p: seq<Assignment>)
    requires PlanChunks(path, fileSize, ids) == Ok(p)
    ensures forall k :: 0 <= k < |p| ==> p[k].start + p[k].size <= fileSize
    ensures forall i, j, b :: 0 <= i < |p| && 0 <= j < |p| && i != j && CoveredBy(p[i], b) ==> !CoveredBy(p[j], b)
  {
    var n := |ids|;
    var c := fileSize / n;
    FloorDiv(fileSize, n);
    forall k | 0 <= k < n ensures p[k].start + p[k].size <= fileSize {
      MulLeft(k + 1, n, c);
      assert p[k].start + p[k].size == (k + 1) * c;
    }
    forall i, j, b | 0 <= i < n && 0 <= j < n && i != j && CoveredBy(p[i], b)
      ensures !CoveredBy(p[j], b)
    {
      if i < j {
        MulLeft(i + 1, j, c);
        assert p[i].start + p[i].size == (i + 1) * c;
      } else {
        MulLeft(j + 1, i, c);
        assert p[j].start + p[j].size == (j + 1) * c;
      }
    }
  }

  /** A byte is read by the plan exactly when it lies before `n * chunk_size`;
      the tail behind it is shorter than `n` bytes and is read by nobody. */
  lemma PlanCoverage(path: Path, fileSize: nat, ids: seq<WorkerId>, p: seq<Assignment>, b: int)
    requires PlanChunks(path, fileSize, ids) == Ok(p)
    ensures Covers(p, b) <==> 0 <= b < |ids| * (fileSize / |ids|)
    ensures fileSize - |ids| * (fileSize / |ids|) < |ids|
  {
    var n := |ids|;
    var c := fileSize / n;
    FloorDiv(fileSize, n);
    if 0 <= b < n * c {
      var k := b / c;
      assert k * c <= b < k * c + c;
      QuotientBelow(b, n, c);
      assert CoveredBy(p[k], b);
    }
    if Covers(p, b) {
      var k :| 0 <= k < n && CoveredBy(p[k], b);
      MulLeft(k + 1, n, c);
      assert p[k].start + p[k].size == (k + 1) * c;
    }
  }

  /** With distinct worker ids each worker gets exactly one range. */
  lemma PlanOncePerWorker(path: Path, fileSize: nat, ids: seq<WorkerId>, p: seq<Assignment>)
    requires Distinct(ids)
    requires PlanChunks(path, fileSize, ids) == Ok(p)
    ensures forall i, j :: 0 <= i < |p| && 0 <= j < |p| && p[i].worker == p[j].worker ==> i == j
    ensures forall id :: id in ids <==> id in Workers(p)
  {
  }

  /** Ten bytes over three workers: three ranges of three bytes, and byte 9,
      the last byte of the file, is read by nobody. */
  lemma PlanChunksDropsTail()
    ensures PlanChunks("app.log", 10, ["w1", "w2", "w3"]) == Ok([
      Assignment("w1", "app.log", 0, 3),
      Assignment("w2", "app.log", 3, 3),
      Assignment("w3", "app.log", 6, 3)])
    ensures !Covers(PlanChunks("app.log", 10, ["w1", "w2", "w3"]).value, 9)
  {
    var p := PlanChunks("app.log", 10, ["w1", "w2", "w3"]).value;
    assert 10 / 3 == 3;
    assert |p| == 3;
    assert p[0] == Assignment("w1", "app.log", 0, 3);
    assert p[1] == Assignment("w2", "app.log", 3, 3);
    assert p[2] == Assignment("w3", "app.log", 6, 3);
    assert p == [Assignment("w1", "app.log", 0, 3), Assignment("w2", "app.log", 3, 3), Assignment("w3", "app.log", 6, 3)];
    forall k | 0 <= k < |p| ensures !CoveredBy(p[k], 9) {
      assert p[k].start == k * 3;
    }
  }

  /** The same plan with the remainder given to the last worker, whose range
      then runs to the end of the file. */
  function PlanChunksToEof(path: Path, fileSize: nat, ids: seq<WorkerId>): (r: Result<seq<Assignment>>)
    ensures r.Raise? <==> |ids| == 0
    ensures r.Raise? ==> r.error == ZeroDivisionError
    ensures r.Ok? ==> Workers(r.value) == ids
  {
    if |ids| == 0 then Raise(ZeroDivisionError)
    else
      var n := |ids|;
      var c := fileSize / n;
      FloorDiv(fileSize, n);
      MulLeft(n - 1, n, c);
      var p := PlanFrom(path, ids[..n - 1], 0, c) + [Assignment(ids[n - 1], path, (n - 1) * c, fileSize - (n - 1) * c)];
      assert Workers(p) == ids;
      Ok(p)
  }

  /** Block `k` of the corrected plan: the floor-sized blocks first, then the
      last one from `(n - 1) * c` up to the file size. */
  lemma ToEofBlock(path: Path, fileSize: nat, ids: seq<WorkerId>, p: seq<Assignment>, k: nat, b: int)
    requires PlanChunksToEof(path, fileSize, ids) == Ok(p)
    requires k < |p|
    ensures var c := fileSize / |ids|;
      CoveredBy(p[k], b) <==> if k < |ids| - 1 then k * c <= b < (k + 1) * c else (|ids| - 1) * c <= b < fileSize
  {
  }

  /** The byte block that holds `b` is block `b / c`. */
  lemma BlockIndex(b: int, i: nat, c: nat)
    requires i * c <= b < (i + 1) * c
    ensures c > 0 && i == b / c
  {
    var q := b / c;
    if i < q {
      MulLeft(i + 1, q, c);
    } else if q < i {
      MulLeft(q + 1, i, c);
    }
  }

  /** Every byte of the file lies in some range of the corrected plan. */
  lemma ToEofReadsFile(path: Path, fileSize: nat, ids: seq<WorkerId>, p: seq<Assignment>, b: int)
    requires PlanChunksToEof(path, fileSize, ids) == Ok(p)
    requires 0 <= b < fileSize
    ensures Covers(p, b)
  {
    var n := |ids|;
    var c := fileSize / n;
    if b < (n - 1) * c {
      QuotientBelow(b, n - 1, c);
      DivBlock(b, c);
      ToEofBlock(path, fileSize, ids, p, b / c, b);
      assert CoveredBy(p[b / c], b);
    } else {
      ToEofBlock(path, fileSize, ids, p, n - 1, b);
      assert CoveredBy(p[n - 1], b);
    }
  }

  /** Byte `b` lies in block `b / c` of size `c`. */
  lemma DivBlock(b: nat, c: nat)
    requires c > 0
    ensures (b / c) * c <= b < (b / c + 1) * c
  {
  }

  /** Every range of the corrected plan lies inside the file. */
  lemma ToEofInFile(path: Path, fileSize: nat, ids: seq<WorkerId>, p: seq<Assignment>, b: int, k: nat)
    requires PlanChunksToEof(path, fileSize, ids) == Ok(p)
    requires k < |p| && CoveredBy(p[k], b)
    ensures 0 <= b < fileSize
  {
    var n := |ids|;
    var c := fileSize / n;
    FloorDiv(fileSize, n);
    ToEofBlock(path, fileSize, ids, p, k, b);
    if k < n - 1 {
      MulLeft(k + 1, n, c);
    }
  }

  /** The corrected plan reads every byte of the file and nothing outside it. */
  lemma PlanToEofCovers(path: Path, fileSize: nat, ids: seq<WorkerId>, p: seq<Assignment>, b: int)
    requires PlanChunksToEof(path, fileSize, ids) == Ok(p)
    ensures Covers(p, b) <==> 0 <= b < fileSize
  {
    if 0 <= b < fileSize {
      ToEofReadsFile(path, fileSize, ids, p, b);
    }
    if Covers(p, b) {
      var k :| 0 <= k < |p| && CoveredBy(p[k], b);
      ToEofInFile(path, fileSize, ids, p, b, k);
    }
  }

  /** No byte is read by two ranges of the corrected plan. */
  lemma PlanToEofOnce(path: Path, fileSize: nat, ids: seq<WorkerId>, p: seq<Assignment>, b: int)
    requires PlanChunksToEof(path, fileSize, ids) == Ok(p)
    ensures forall i, j :: 0 <= i < |p| && 0 <= j < |p| && CoveredBy(p[i], b) && CoveredBy(p[j], b) ==> i == j
  {
    var n := |ids|;
    var c := fileSize / n;
    forall i, j | 0 <= i < n && 0 <= j < n && CoveredBy(p[i], b) && CoveredBy(p[j], b) ensures i == j {
      OnceAt(path, fileSize, ids, p, b, i, j);
    }
  }

  lemma OnceAt(path: Path, fileSize: nat, ids: seq<WorkerId>, p: seq<Assignment>, b: int, i: nat, j: nat)
    requires PlanChunksToEof(path, fileSize, ids) == Ok(p)
    requires i < |p| && j < |p| && CoveredBy(p[i], b) && CoveredBy(p[j], b)
    ensures i == j
  {
    var n := |ids|;
    var c := fileSize / n;
    ToEofBlock(path, fileSize, ids, p, i, b);
    ToEofBlock(path, fileSize, ids, p, j, b);
    if i < n - 1 && j < n - 1 {
      BlockIndex(b, i, c);
      BlockIndex(b, j, c);
    } else if i < n - 1 {
      MulLeft(i + 1, n - 1, c);
    } else if j < n - 1 {
      MulLeft(j + 1, n - 1, c);
    }
  }

  /** The correction changes only the last range: the others are those of
      the plan as written, and the last one grows by the dropped remainder. */
  lemma PlanToEofExtendsLast(path: Path, fileSize: nat, ids: seq<WorkerId>, p: seq<Assignment>, q: seq<Assignment>)
    requires PlanChunks(path, fileSize, ids) == Ok(p)
    requires PlanChunksToEof(path, fileSize, ids) == Ok(q)
    ensures |q| == |p|
    ensures forall k :: 0 <= k < |p| - 1 ==> q[k] == p[k]
    ensures q[|q| - 1].start == p[|p| - 1].start
    ensures q[|q| - 1].size == p[|p| - 1].size + (fileSize - |ids| * (fileSize / |ids|))
  {
  }

  /** `distribute_work(filepath)`: the size lookup fails first for a missing
      file, then the plan divides by the number of workers. */
  function DistributeWork(fs: FileSystem, reg: Registry, path: Path): (r: Result<seq<Assignment>>)
    ensures path !in fs ==> r == Raise(FileNotFoundError(path))
    ensures path in fs && |reg| == 0 ==> r == Raise(ZeroDivisionError)
    ensures r.Ok? <==> path in fs && |reg| > 0
    ensures r.Ok? ==> Workers(r.value) == Ids(reg)
  {
    if path !in fs then Raise(FileNotFoundError(path))
    else PlanChunks(path, fs[path], Ids(reg))
  }

  /** `distribute_work` as the Python loop runs it: `start` advances by
      `chunk_size` after each `assign_task`. */
  method Distribute(fs: FileSystem, reg: Registry, path: Path) returns (r: Result<seq<Assignment>>)
    ensures r == DistributeWork(fs, reg, path)
  {
    if path !in fs {
      return Raise(FileNotFoundError(path));
    }
    var fileSize := fs[path];
    if |reg| == 0 {
      return Raise(ZeroDivisionError);
    }
    var chunkSize := fileSize / |reg|;
    var start := 0;
    var sent: seq<Assignment> := [];
    for i := 0 to |reg|
      invariant start == i * chunkSize
      invariant |sent| == i
      invariant forall k :: 0 <= k < i ==> sent[k] == Assignment(reg[k].id, path, k * chunkSize, chunkSize)
    {
      var end := start + chunkSize;
      sent := sent + [Assignment(reg[i].id, path, start, chunkSize)];
      start := end;
    }
    assert sent == PlanFrom(path, Ids(reg), 0, chunkSize);
    return Ok(sent);
  }

  /** The dict after the failure handler and what its re-plan produced. */
  datatype Recovery = Recovery(workers: Registry, outcome: Result<seq<Assignment>>)

  /** `handle_worker_failure(worker_id)`: pop the worker, then re-plan its
      file over the workers that remain. The pop stays done when the later
      steps raise. */
  function HandleWorkerFailure(fs: FileSystem, reg: Registry, id: WorkerId): (r: Recovery)
    ensures id !in Ids(reg) ==> r == Recovery(reg, Raise(KeyError(id)))
    ensures id in Ids(reg) ==> r.workers == Remove(reg, id) && id !in Ids(r.workers)
  {
    match Pop(reg, id)
    case Raise(e) => Recovery(reg, Raise(e))
    case Ok(Popped(data, rest)) =>
      match data.filepath
      case None => Recovery(rest, Raise(KeyError("filepath")))
      case Some(path) => Recovery(rest, DistributeWork(fs, rest, path))
  }

  /** A failed worker whose file exists has the whole file re-planned over
      the others only: one range fewer, each `file_size // (n - 1)` bytes. */
  lemma FailureReplans(fs: FileSystem, reg: Registry, id: WorkerId, path: Path)
    requires Distinct(Ids(reg))
    requires Lookup(reg, id) == Some(WorkerData(Some(path)))
    requires path in fs
    requires |reg| > 1
    ensures HandleWorkerFailure(fs, reg, id).outcome.Ok?
    ensures HandleWorkerFailure(fs, reg, id).outcome == PlanChunks(path, fs[path], Ids(Remove(reg, id)))
    ensures |HandleWorkerFailure(fs, reg, id).outcome.value| == |reg| - 1
    ensures forall k :: 0 <= k < |reg| - 1 ==>
      HandleWorkerFailure(fs, reg, id).outcome.value[k].size == fs[path] / (|reg| - 1)
    ensures id !in Workers(HandleWorkerFailure(fs, reg, id).outcome.value)
  {
    RemovePresent(reg, id);
    RemoveDrops(reg, id);
  }

  /** After the failure of the worker at position `i`, the k-th range of the
      re-plan goes to the k-th surviving worker in the dict's original order. */
  lemma FailureKeepsOrder(fs: FileSystem, reg: Registry, i: nat, path: Path)
    requires Distinct(Ids(reg)) && i < |reg|
    requires reg[i].data == WorkerData(Some(path))
    requires path in fs
    requires |reg| > 1
    ensures HandleWorkerFailure(fs, reg, reg[i].id).outcome.Ok?
    ensures Workers(HandleWorkerFailure(fs, reg, reg[i].id).outcome.value) == Ids(reg[..i] + reg[i + 1..])
  {
    var id := reg[i].id;
    RemoveAt(reg, id, i);
    RemovePresent(reg, id);
    assert Ids(reg)[i] == id;
    assert Lookup(reg, id) == Some(WorkerData(Some(path))) by {
      LookupAt(reg, i);
    }
  }

  /** In a dict the lookup of the key at position `i` finds its value. */
  lemma {:induction false} LookupAt(reg: Registry, i: nat)
    requires Distinct(Ids(reg)) && i < |reg|
    ensures Lookup(reg, reg[i].id) == Some(reg[i].data)
    decreases i
  {
    if i > 0 {
      DistinctTail(reg);
      assert Ids(reg)[0] != Ids(reg)[i];
      LookupAt(reg[1..], i - 1);
    }
  }

  /** When the last worker fails its entry is gone and the re-plan divides by zero. */
  lemma LastWorkerFails(fs: FileSystem, id: WorkerId, path: Path)
    requires path in fs
    ensures HandleWorkerFailure(fs, [Entry(id, WorkerData(Some(path)))], id)
      == Recovery([], Raise(ZeroDivisionError))
  {
    var reg := [Entry(id, WorkerData(Some(path)))];
    assert Ids(reg) == [id];
    assert reg[1..] == [];
  }

  /** A worker registered without a file path: the pop happens, then reading
      `failed_task["filepath"]` raises KeyError. */
  lemma FailureWithoutPath(fs: FileSystem, reg: Registry, id: WorkerId)
    requires Lookup(reg, id) == Some(WorkerData(None))
    ensures HandleWorkerFailure(fs, reg, id) == Recovery(Remove(reg, id), Raise(KeyError("filepath")))
  {
  }
}
