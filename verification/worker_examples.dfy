/** Concrete chunks run through the model of `process_chunk`: the sample log
    of three lines, a blank chunk, a line that is both an error and a
    request, and a request line whose duration does not parse. */
module WorkerExamples {
  import opened Exceptions
  import opened PyStr
  import opened PyInt
  import opened Worker

  const Line1 := "INFO Request processed in 127ms"
  const Line2 := "ERROR Database connection failed"
  const Line3 := "INFO Request processed in 95ms"
  const Sample := Line1 + "\n" + Line2 + "\n" + Line3

  const Reading1 := Reading(false, Some(Ok(127)))
  const Reading2 := Reading(true, None)
  const Reading3 := Reading(false, Some(Ok(95)))

  lemma SampleStripped()
    ensures Strip(Sample) == Sample
  {
    assert Sample == "" + Sample + "";
    StripExact("", Sample, "", Whitespace);
  }

  lemma JoinThree(a: string, b: string, c: string)
    ensures Join([a, b, c], "\n") == a + "\n" + b + "\n" + c
  {
    assert [a, b, c][1..] == [b, c];
    assert [b, c][1..] == [c];
    assert Join([b, c], "\n") == b + "\n" + c;
    assert a + "\n" + (b + "\n" + c) == a + "\n" + b + "\n" + c;
  }

  lemma SampleJoined()
    ensures Join([Line1, Line2, Line3], "\n") == Sample
  {
    JoinThree(Line1, Line2, Line3);
  }

  lemma NoNewline1() ensures '\n' !in Line1 {}
  lemma NoNewline2() ensures '\n' !in Line2 {}
  lemma NoNewline3() ensures '\n' !in Line3 {}

  /** The sample splits into its three lines. */
  lemma SampleLines()
    ensures Lines(Sample) == [Line1, Line2, Line3]
  {
    SampleStripped();
    SampleJoined();
    NoNewline1();
    NoNewline2();
    NoNewline3();
    SplitJoin([Line1, Line2, Line3], '\n');
  }

  lemma Line1Shape() ensures Line1 == "INFO " + RequestMarker + " " + Decimal(127) + "ms" {
    assert Decimal(127) == "127";
  }
  lemma Line3Shape() ensures Line3 == "INFO " + RequestMarker + " " + Decimal(95) + "ms" {
    assert Decimal(95) == "95";
  }

  lemma ReadLine1() ensures Read(Line1) == Reading1 {
    Line1Shape();
    ReadRequestLine("INFO ", 127);
  }

  lemma ReadLine3() ensures Read(Line3) == Reading3 {
    Line3Shape();
    ReadRequestLine("INFO ", 95);
  }

  lemma ErrorLine2() ensures IsErrorLine(Line2) {
    assert Line2 == "" + ErrorMarker + " Database connection failed";
    ContainsFactor("", ErrorMarker, " Database connection failed");
  }

  lemma NotRequestLine2() ensures !IsRequestLine(Line2) {
    assert RequestMarker[2] == 'q' && 'q' !in Line2;
    MissingCharNotContained(Line2, RequestMarker, 2);
  }

  lemma ReadLine2() ensures Read(Line2) == Reading2 {
    ErrorLine2();
    NotRequestLine2();
  }

  lemma ReadAllThree(a: string, b: string, c: string)
    ensures ReadAll([a, b, c]) == [Read(a), Read(b), Read(c)]
  {
  }

  lemma SampleReadings()
    ensures ReadAll([Line1, Line2, Line3]) == [Reading1, Reading2, Reading3]
  {
    ReadAllThree(Line1, Line2, Line3);
    ReadLine1();
    ReadLine2();
    ReadLine3();
  }

  lemma SampleTally()
    ensures TallyOf([Reading1, Reading2, Reading3]) == Ok(Tally(1, [127, 95], 2))
  {
    assert [Reading1][..0] == [];
    assert TallyOf([]) == Ok(Tally(0, [], 0));
    assert Last([Reading1]) == Reading1;
    assert Step(Tally(0, [], 0), Reading1) == Ok(Tally(0, [127], 1)) by {
      assert [] + [127] == [127];
    }
    assert TallyOf([Reading1]) == Ok(Tally(0, [127], 1));
    assert [Reading1, Reading2][..1] == [Reading1];
    assert Last([Reading1, Reading2]) == Reading2;
    assert TallyOf([Reading1, Reading2]) == Ok(Tally(1, [127], 1));
    assert Last([Reading1, Reading2, Reading3]) == Reading3;
    assert Step(Tally(1, [127], 1), Reading3) == Ok(Tally(1, [127, 95], 2)) by {
      assert [127] + [95] == [127, 95];
    }
    assert [Reading1, Reading2, Reading3][..2] == [Reading1, Reading2];
  }

  lemma SampleFinish()
    ensures Finish(Tally(1, [127, 95], 2), 3) == Metrics(1.0 / 3.0, 111.0, 2)
  {
    assert Sum([127, 95]) == 222 by {
      assert [127, 95][..1] == [127];
      assert [127][..0] == [];
    }
  }

  /** The sample of three lines: one error line and two request lines of
      127 ms and 95 ms give an error rate of 1/3, an average of 111 and a
      request count of 2. */
  lemma SampleChunk()
    ensures ProcessText(Sample) == Ok(Metrics(1.0 / 3.0, 111.0, 2))
  {
    SampleLines();
    SampleReadings();
    SampleTally();
    SampleFinish();
  }

  /** An empty or blank chunk is one empty line: no errors, no requests, and
      an error rate of 0 rather than a division by zero. */
  lemma BlankChunk(text: string)
    requires forall k :: 0 <= k < |text| ==> IsSpace(text[k])
    ensures Lines(text) == [""]
    ensures ProcessText(text) == Ok(Metrics(0.0, 0.0, 0))
  {
    assert text == text + "" + "";
    StripExact(text, "", "", Whitespace);
    assert Lines(text) == [""];
    assert Read("") == Reading(false, None);
    assert ReadAll([""]) == [Reading(false, None)];
    assert [Reading(false, None)][..0] == [];
    assert TallyOf([Reading(false, None)]) == Ok(Tally(0, [], 0));
  }

  const Both := "ERROR Request processed in 5ms"

  lemma BothShape()
    ensures Both == "ERROR " + RequestMarker + " " + Decimal(5) + "ms"
    ensures Both == "" + ErrorMarker + " " + RequestMarker + " " + Decimal(5) + "ms"
  {
    assert Decimal(5) == "5";
  }

  lemma ReadBoth() ensures Read(Both) == Reading(true, Some(Ok(5))) {
    BothShape();
    RequestLineDuration("ERROR ", 5);
    ContainsFactor("", ErrorMarker, " " + RequestMarker + " " + Decimal(5) + "ms");
  }

  lemma BothLines() ensures Lines(Both) == [Both] {
    assert Both == "" + Both + "";
    StripExact("", Both, "", Whitespace);
    assert '\n' !in Both;
    SplitJoin([Both], '\n');
  }

  /** The two tests are independent: one line can be an error and a request. */
  lemma ErrorRequestLine()
    ensures ProcessText(Both) == Ok(Metrics(1.0, 5.0, 1))
  {
    BothLines();
    BothReadings();
    BothTally();
    BothFinish();
  }

  lemma BothFinish() ensures Finish(Tally(1, [5], 1), 1) == Metrics(1.0, 5.0, 1) {
    assert [5][..0] == [];
  }

  lemma BothReadings() ensures ReadAll([Both]) == [Reading(true, Some(Ok(5)))] {
    ReadBoth();
    var rs := ReadAll([Both]);
    assert |rs| == 1 && rs[0] == Read(Both);
  }

  lemma BothTally() ensures TallyOf([Reading(true, Some(Ok(5)))]) == Ok(Tally(1, [5], 1)) {
    var r := Reading(true, Some(Ok(5)));
    assert [r][..0] == [];
    assert TallyOf([]) == Ok(Tally(0, [], 0));
    assert Last([r]) == r;
    assert Step(Tally(0, [], 0), r) == Ok(Tally(1, [5], 1)) by {
      assert [] + [5] == [5];
    }
  }

  /** Text after the duration that contains "in" moves the split: here the
      last "in" is the one in "admin", so `int("")` raises. */
  lemma TrailingInRaises()
    ensures Duration("INFO Request processed in 12ms by admin") == Raise(ValueError(""))
  {
    var line := "INFO Request processed in 12ms by admin";
    assert line == "INFO Request processed in 12ms by adm" + DurationSep + "";
    DurationSepSelfOverlapFree();
    LastPieceAfterLastSep("INFO Request processed in 12ms by adm", DurationSep, "");
    assert StripChars("", DurationUnits) == "";
    assert ParseInt("") == None;
  }
}
