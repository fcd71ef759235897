/** The line metrics of `Worker.process_chunk`, computed from the chunk text
    once it has been read from the file. */
module Worker {
  import opened Exceptions
  import opened PyStr
  import opened PyInt

  const ErrorMarker := "ERROR"
  const RequestMarker := "Request processed in"
  /** The separator whose last occurrence precedes a duration. */
  const DurationSep := "in"
  /** The unit characters stripped from both ends of a duration. */
  const DurationUnits := "ms"

  /** What `process_chunk` returns, with its two quotients as exact rationals. */
  datatype Metrics = Metrics(errorRate: real, avgResponseTime: real, requestCount: nat)

  /** `chunk.strip().split("\n")`: never empty, and free of newlines. */
  function Lines(text: string): (r: seq<string>)
    ensures |r| >= 1
  {
    Split(Strip(text), "\n")
  }

  predicate IsErrorLine(line: string) {
    Contains(line, ErrorMarker)
  }

  predicate IsRequestLine(line: string) {
    Contains(line, RequestMarker)
  }

  /** The text given to `int()`: the piece after the last "in", with `m` and
      `s` stripped from both of its ends. */
  function DurationLiteral(line: string): string {
    StripChars(Last(Split(line, DurationSep)), DurationUnits)
  }

  /** `int(line.split("in")[-1].strip("ms"))` */
  function Duration(line: string): Result<int> {
    match ParseInt(DurationLiteral(line))
    case Some(n) => Ok(n)
    case None => Raise(ValueError(DurationLiteral(line)))
  }


  /** What one pass of the loop body learns from a line: whether it counts as
      an error, and, for a request line only, what `int()` gave for it. */
  datatype Reading = Reading(error: bool, duration: Option<Result<int>>) {
    predicate IsRequest() {
      duration.Some?
    }
    /** A request line on which `int()` raises. */
    predicate Fails() {
      duration.Some? && duration.value.Raise?
    }
  }

  function Read(line: string): Reading {
    Reading(IsErrorLine(line), if IsRequestLine(line) then Some(Duration(line)) else None)
  }

  function ReadAll(lines: seq<string>): (rs: seq<Reading>)
    ensures |rs| == |lines|
    ensures forall k :: 0 <= k < |lines| ==> rs[k] == Read(lines[k])
  {
    seq(|lines|, k requires 0 <= k < |lines| => Read(lines[k]))
  }

  /** The local `metrics` dict of the loop. */
  datatype Tally = Tally(errorCount: nat, responseTimes: seq<int>, requestCount: nat)

  /** One pass of the loop body: count an error, then parse and collect a
      request's duration, raising when `int()` raises. */
  function Step(t: Tally, r: Reading): Result<Tally> {
    var t' := if r.error then t.(errorCount := t.errorCount + 1) else t;
    match r.duration
    case None => Ok(t')
    case Some(Raise(e)) => Raise(e)
    case Some(Ok(d)) => Ok(t'.(responseTimes := t'.responseTimes + [d], requestCount := t'.requestCount + 1))
  }

  /** The loop over all readings, from an empty tally. */
  function TallyOf(rs: seq<Reading>): Result<Tally>
    decreases |rs|
  {
    if |rs| == 0 then Ok(Tally(0, [], 0))
    else
      match TallyOf(rs[..|rs| - 1])
      case Raise(e) => Raise(e)
      case Ok(t) => Step(t, Last(rs))
  }

  /** The indices of the readings that count as errors. */
  function ErrorIndices(rs: seq<Reading>): set<nat> {
    set k: nat | k < |rs| && rs[k].error
  }

  /** The indices of the readings of request lines. */
  function RequestIndices(rs: seq<Reading>): set<nat> {
    set k: nat | k < |rs| && rs[k].IsRequest()
  }

  /** The readings of request lines, in order. */
  function Requests(rs: seq<Reading>): (q: seq<Reading>)
    ensures forall j :: 0 <= j < |q| ==> q[j].IsRequest()
    decreases |rs|
  {
    if |rs| == 0 then []
    else Requests(rs[..|rs| - 1]) + (if Last(rs).IsRequest() then [Last(rs)] else [])
  }

  lemma IndicesStep(rs: seq<Reading>)
    requires |rs| > 0
    ensures ErrorIndices(rs) == ErrorIndices(rs[..|rs| - 1]) + (if Last(rs).error then {|rs| - 1} else {})
    ensures RequestIndices(rs) == RequestIndices(rs[..|rs| - 1]) + (if Last(rs).IsRequest() then {|rs| - 1} else {})
    ensures |rs| - 1 !in ErrorIndices(rs[..|rs| - 1]) && |rs| - 1 !in RequestIndices(rs[..|rs| - 1])
  {
    var init := rs[..|rs| - 1];
    assert forall k :: 0 <= k < |init| ==> init[k] == rs[k];
  }

  /** The loop succeeds exactly when no request line fails to parse, and then
      its counts are the sizes of the error and request index sets, and the
      collected durations are those of the request lines, in order. */
  lemma {:induction false} TallyOk(rs: seq<Reading>)
    ensures TallyOf(rs).Ok? <==> forall k :: 0 <= k < |rs| ==> !rs[k].Fails()
    ensures TallyOf(rs).Ok? ==>
              var t := TallyOf(rs).value;
              && t.errorCount == |ErrorIndices(rs)| <= |rs|
              && t.requestCount == |t.responseTimes| == |RequestIndices(rs)| == |Requests(rs)|
              && forall j :: 0 <= j < |t.responseTimes| ==>
                   Requests(rs)[j].duration == Some(Ok(t.responseTimes[j]))
  {
    TallySucceeds(rs);
    if TallyOf(rs).Ok? {
      TallyCounts(rs, TallyOf(rs).value);
    }
  }

  /** The loop raises exactly when some request line fails to parse. */
  lemma {:induction false} TallySucceeds(rs: seq<Reading>)
    ensures TallyOf(rs).Ok? <==> forall k :: 0 <= k < |rs| ==> !rs[k].Fails()
    decreases |rs|
  {
    if |rs| > 0 {
      var init := rs[..|rs| - 1];
      assert forall k :: 0 <= k < |init| ==> init[k] == rs[k];
      TallySucceeds(init);
    }
  }

  /** The counts of a loop that finished. */
  lemma {:induction false} TallyCounts(rs: seq<Reading>, t: Tally)
    requires TallyOf(rs) == Ok(t)
    ensures t.errorCount == |ErrorIndices(rs)| <= |rs|
    ensures t.requestCount == |t.responseTimes| == |RequestIndices(rs)| == |Requests(rs)|
    ensures forall j :: 0 <= j < |t.responseTimes| ==> Requests(rs)[j].duration == Some(Ok(t.responseTimes[j]))
    decreases |rs|
  {
    if |rs| > 0 {
      var init := rs[..|rs| - 1];
      var t0 := TallyOf(init).value;
      TallyCounts(init, t0);
      IndicesStep(rs);
      assert t.responseTimes[..|t0.responseTimes|] == t0.responseTimes;
    }
  }


  /** When the loop raises, it raises the error of the first request line
      whose duration does not parse. */
  lemma {:induction false} TallyFirstFailure(rs: seq<Reading>)
    requires TallyOf(rs).Raise?
    ensures exists k :: 0 <= k < |rs| && rs[k].duration == Some(Raise(TallyOf(rs).error))
                        && forall j :: 0 <= j < k ==> !rs[j].Fails()
    decreases |rs|
  {
    var init := rs[..|rs| - 1];
    assert forall k :: 0 <= k < |init| ==> init[k] == rs[k];
    if TallyOf(init).Raise? {
      TallyFirstFailure(init);
      var k :| 0 <= k < |init| && init[k].duration == Some(Raise(TallyOf(init).error))
               && forall j :: 0 <= j < k ==> !init[j].Fails();
      assert rs[k].duration == Some(Raise(TallyOf(rs).error));
    } else {
      TallyOk(init);
      assert rs[|rs| - 1].duration == Some(Raise(TallyOf(rs).error));
    }
  }

  /** Once a prefix of the readings raises, the whole loop raises the same error. */
  lemma {:induction false} TallyPrefixRaise(rs: seq<Reading>, n: nat)
    requires n <= |rs| && TallyOf(rs[..n]).Raise?
    ensures TallyOf(rs) == TallyOf(rs[..n])
    decreases |rs| - n
  {
    if n < |rs| {
      assert rs[..n + 1][..n] == rs[..n];
      TallyPrefixRaise(rs, n + 1);
    } else {
      assert rs[..n] == rs;
    }
  }

  function Sum(xs: seq<int>): int
    decreases |xs|
  {
    if |xs| == 0 then 0 else Sum(xs[..|xs| - 1]) + Last(xs)
  }

  /** `sum(xs) / len(xs) if xs else 0` */
  function Average(xs: seq<int>): (r: real)
    ensures |xs| == 0 ==> r == 0.0
    ensures |xs| > 0 ==> r * (|xs| as real) == Sum(xs) as real
  {
    if |xs| == 0 then 0.0 else Sum(xs) as real / |xs| as real
  }

  /** The returned dict, built from the tally of a chunk of `lineCount` lines. */
  function Finish(t: Tally, lineCount: nat): Metrics
    requires lineCount > 0
  {
    Metrics(t.errorCount as real / lineCount as real, Average(t.responseTimes), t.requestCount)
  }

  /** `process_chunk` once the chunk text is read. */
  function ProcessText(text: string): Result<Metrics> {
    var lines := Lines(text);
    match TallyOf(ReadAll(lines))
    case Raise(e) => Raise(e)
    case Ok(t) => Ok(Finish(t, |lines|))
  }

  /** `process_chunk` after the read, as the Python loop computes it: one pass
      over the lines, counting and collecting as it goes. */
  method ProcessChunk(text: string) returns (r: Result<Metrics>)
    ensures r == ProcessText(text)
  {
    var lines := Split(Strip(text), "\n");
    ghost var rs := ReadAll(lines);
    var metrics := Tally(0, [], 0);
    var i := 0;
    while i < |lines|
      invariant 0 <= i <= |lines|
      invariant TallyOf(rs[..i]) == Ok(metrics)
    {
      assert rs[..i + 1][..i] == rs[..i];
      assert rs[i] == Read(lines[i]);
      var next := CountLine(metrics, lines[i]);
      if next.Raise? {
        TallyPrefixRaise(rs, i + 1);
        return Raise(next.error);
      }
      metrics := next.value;
      i := i + 1;
    }
    assert rs[..i] == rs;
    var avg := if |metrics.responseTimes| > 0 then Sum(metrics.responseTimes) as real / |metrics.responseTimes| as real else 0.0;
    r := Ok(Metrics(metrics.errorCount as real / |lines| as real, avg, metrics.requestCount));
  }

  /** The body of the loop over the lines, updating the counts of `t`. */
  method CountLine(t: Tally, line: string) returns (r: Result<Tally>)
    ensures r == Step(t, Read(line))
  {
    var errorCount := t.errorCount;
    var responseTimes := t.responseTimes;
    var requestCount := t.requestCount;
    if Contains(line, ErrorMarker) {
      errorCount := errorCount + 1;
    }
    if Contains(line, RequestMarker) {
      var timeTaken := Duration(line);
      if timeTaken.Raise? {
        return Raise(timeTaken.error);
      }
      responseTimes := responseTimes + [timeTaken.value];
      requestCount := requestCount + 1;
    }
    return Ok(Tally(errorCount, responseTimes, requestCount));
  }


  // ---------------------------------------------------------------- in terms of lines

  /** The lines are the stripped chunk cut at its newlines: joined back they
      give the stripped text, and none of them holds a newline. */
  lemma LinesMeaning(text: string)
    ensures Join(Lines(text), "\n") == Strip(text)
    ensures forall k :: 0 <= k < |Lines(text)| ==> !Contains(Lines(text)[k], "\n")
  {
    JoinSplit(Strip(text), "\n");
    SplitPiecesFree(Strip(text), "\n");
  }

  /** The indices of the lines that contain `marker`. */
  function LinesWith(lines: seq<string>, marker: string): set<nat> {
    set k: nat | k < |lines| && Contains(lines[k], marker)
  }

  /** The request lines, in order. */
  function RequestLines(lines: seq<string>): seq<string>
    decreases |lines|
  {
    if |lines| == 0 then []
    else RequestLines(lines[..|lines| - 1]) + (if IsRequestLine(Last(lines)) then [Last(lines)] else [])
  }

  lemma ReadAllPrefix(lines: seq<string>, n: nat)
    requires n <= |lines|
    ensures ReadAll(lines[..n]) == ReadAll(lines)[..n]
  {
  }

  /** Reading the lines and keeping the request readings is reading the
      request lines. */
  lemma {:induction false} RequestsOfLines(lines: seq<string>)
    ensures Requests(ReadAll(lines)) == ReadAll(RequestLines(lines))
    decreases |lines|
  {
    if |lines| > 0 {
      var n := |lines| - 1;
      var rs := ReadAll(lines);
      ReadAllPrefix(lines, n);
      RequestsOfLines(lines[..n]);
      assert Last(rs) == Read(Last(lines));
      var init := RequestLines(lines[..n]);
      var last := if IsRequestLine(Last(lines)) then [Last(lines)] else [];
      assert ReadAll(init + last) == ReadAll(init) + ReadAll(last);
    }
  }

  /** A line's reading records what the loop body finds in it. */
  lemma ReadingsOfLines(lines: seq<string>)
    ensures var rs := ReadAll(lines);
            && (forall k :: 0 <= k < |lines| ==>
                  (rs[k].Fails() <==> IsRequestLine(lines[k]) && Duration(lines[k]).Raise?))
            && ErrorIndices(rs) == LinesWith(lines, ErrorMarker)
            && RequestIndices(rs) == LinesWith(lines, RequestMarker)
  {
  }

  /** `process_chunk` raises exactly when some request line's duration does
      not parse, and then with the error of the first such line. */
  lemma ProcessTextRaises(text: string)
    ensures var lines := Lines(text);
            var r := ProcessText(text);
            && (r.Ok? <==> forall k :: 0 <= k < |lines| && IsRequestLine(lines[k]) ==> Duration(lines[k]).Ok?)
            && (r.Raise? ==>
                  exists k :: 0 <= k < |lines| && IsRequestLine(lines[k]) && Duration(lines[k]) == Raise(r.error)
                              && forall j :: 0 <= j < k && IsRequestLine(lines[j]) ==> Duration(lines[j]).Ok?)
  {
    var lines := Lines(text);
    var rs := ReadAll(lines);
    ReadingsOfLines(lines);
    TallyOk(rs);
    if TallyOf(rs).Raise? {
      TallyFirstFailure(rs);
      var k :| 0 <= k < |rs| && rs[k].duration == Some(Raise(TallyOf(rs).error))
               && forall j :: 0 <= j < k ==> !rs[j].Fails();
      assert rs[k] == Read(lines[k]);
    }
  }

  /** When `process_chunk` returns, the request count is the number of lines
      containing "Request processed in", the error rate is the share of lines
      containing "ERROR", and the average is 0 when there is no request. */
  lemma ProcessTextCounts(text: string, m: Metrics)
    requires ProcessText(text) == Ok(m)
    ensures var lines := Lines(text);
            && m.requestCount == |LinesWith(lines, RequestMarker)|
            && m.errorRate == |LinesWith(lines, ErrorMarker)| as real / |lines| as real
            && 0.0 <= m.errorRate <= 1.0
            && (m.requestCount == 0 ==> m.avgResponseTime == 0.0)
  {
    var lines := Lines(text);
    var rs := ReadAll(lines);
    ReadingsOfLines(lines);
    TallyOk(rs);
    var t := TallyOf(rs).value;
    assert m == Finish(t, |lines|);
    assert t.errorCount == |LinesWith(lines, ErrorMarker)|;
    Share(t.errorCount, |lines|);
  }

  /** A count out of `n` is a share between 0 and 1. */
  lemma Share(c: nat, n: nat)
    requires 0 < n && c <= n
    ensures 0.0 <= c as real / n as real <= 1.0
  {
  }

  /** The average response time is the mean of the durations of the request
      lines, taken in order. */
  lemma AverageOverRequestLines(text: string, ds: seq<int>)
    requires ProcessText(text).Ok?
    requires |ds| == |RequestLines(Lines(text))|
    requires forall j :: 0 <= j < |ds| ==> Duration(RequestLines(Lines(text))[j]) == Ok(ds[j])
    ensures ProcessText(text).value.avgResponseTime == Average(ds)
  {
    var lines := Lines(text);
    var rs := ReadAll(lines);
    TallyOk(rs);
    RequestsOfLines(lines);
    var t := TallyOf(rs).value;
    var q := RequestLines(lines);
    assert |t.responseTimes| == |ds|;
    forall j | 0 <= j < |ds| ensures t.responseTimes[j] == ds[j] {
      assert Requests(rs)[j] == Read(q[j]);
    }
    assert t.responseTimes == ds;
  }

  lemma {:induction false} SumBounds(xs: seq<int>, lo: int, hi: int)
    requires forall k :: 0 <= k < |xs| ==> lo <= xs[k] <= hi
    ensures |xs| * lo <= Sum(xs) <= |xs| * hi
    decreases |xs|
  {
    if |xs| > 0 {
      var init := xs[..|xs| - 1];
      assert forall k :: 0 <= k < |init| ==> init[k] == xs[k];
      SumBounds(init, lo, hi);
      assert |xs| * lo == |init| * lo + lo;
      assert |xs| * hi == |init| * hi + hi;
    }
  }

  lemma CastMul(a: int, b: int)
    ensures (a * b) as real == (a as real) * (b as real)
  {
  }

  lemma QuotientBetween(s: real, n: real, lo: real, hi: real)
    requires n > 0.0 && n * lo <= s <= n * hi
    ensures lo <= s / n <= hi
  {
  }

  /** The average lies between the smallest and the largest duration. */
  lemma AverageBetween(xs: seq<int>, lo: int, hi: int)
    requires |xs| > 0
    requires forall k :: 0 <= k < |xs| ==> lo <= xs[k] <= hi
    ensures lo as real <= Average(xs) <= hi as real
  {
    SumBounds(xs, lo, hi);
    CastMul(|xs|, lo);
    CastMul(|xs|, hi);
    QuotientBetween(Sum(xs) as real, |xs| as real, lo as real, hi as real);
  }

  /** The text after the last "in" of a line of the form `... Request processed in <N>ms` is the
      space, number and unit that end it. */
  lemma DurationTail(prefix: string, n: int)
    ensures Last(Split(prefix + RequestMarker + " " + Decimal(n) + "ms", DurationSep))
            == " " + Decimal(n) + "ms"
  {
    var tail := " " + Decimal(n) + "ms";
    assert prefix + RequestMarker + " " + Decimal(n) + "ms"
           == (prefix + "Request processed ") + DurationSep + tail;
    assert 'i' !in NatDecimal(if n < 0 then -n else n);
    assert 'i' !in tail;
    MissingCharNotContained(tail, DurationSep, 0);
    DurationSepSelfOverlapFree();
    LastPieceAfterLastSep(prefix + "Request processed ", DurationSep, tail);
  }

  /** Stripping the unit characters leaves the space and the number. */
  lemma UnitStripped(n: int)
    ensures StripChars(" " + Decimal(n) + "ms", DurationUnits) == " " + Decimal(n)
  {
    var d := Decimal(n);
    var digits := NatDecimal(if n < 0 then -n else n);
    assert d[|d| - 1] == digits[|digits| - 1];
    assert " " + d + "ms" == "" + (" " + d) + DurationUnits;
    StripExact("", " " + d, DurationUnits, AnyOf(DurationUnits));
  }

  /** A line of the form `... Request processed in <N>ms` is a
      request line whose duration is N, whatever precedes it. */
  lemma RequestLineDuration(prefix: string, n: int)
    ensures IsRequestLine(prefix + RequestMarker + " " + Decimal(n) + "ms")
    ensures Duration(prefix + RequestMarker + " " + Decimal(n) + "ms") == Ok(n)
  {
    var tail := " " + Decimal(n) + "ms";
    assert prefix + RequestMarker + " " + Decimal(n) + "ms" == prefix + RequestMarker + tail;
    ContainsFactor(prefix, RequestMarker, tail);
    DurationTail(prefix, n);
    UnitStripped(n);
    assert " " + Decimal(n) == " " + Decimal(n) + "";
    ParseDecimal(" ", n, "");
  }

  lemma DurationSepSelfOverlapFree()
    ensures SelfOverlapFree(DurationSep)
  {
    forall d | 0 < d < |DurationSep| ensures DurationSep[d..] != DurationSep[..|DurationSep| - d] {
      assert DurationSep[d..][0] == 'n' && DurationSep[..|DurationSep| - d][0] == 'i';
    }
  }

  lemma NoCapitalE(prefix: string, n: int)
    requires 'E' !in prefix
    ensures !IsErrorLine(prefix + RequestMarker + " " + Decimal(n) + "ms")
  {
    var line := prefix + RequestMarker + " " + Decimal(n) + "ms";
    assert 'E' !in NatDecimal(if n < 0 then -n else n);
    assert 'E' !in RequestMarker;
    assert 'E' !in line;
    MissingCharNotContained(line, ErrorMarker, 0);
  }

  /** A line of the form `... Request processed in <N>ms` whose prefix has no capital E is read as
      a request line, not an error line, with the duration it ends with. */
  lemma ReadRequestLine(prefix: string, n: int)
    requires 'E' !in prefix
    ensures Read(prefix + RequestMarker + " " + Decimal(n) + "ms") == Reading(false, Some(Ok(n)))
  {
    RequestLineDuration(prefix, n);
    NoCapitalE(prefix, n);
  }
}
