/** Reading the device: the `singleOutputRead` retry loop and one cycle of the
    telemetry routine, with the serial line abstracted as the sequence of reply lines
    it yields. */
module Device {
  import opened Wrappers
  import opened Pattern
  import opened Frame
  import Strconv

  /** The replies `singleOutputRead` returns, in order, from a stream of raw lines:
      each call skips invalid lines and returns the next valid one. */
  function ValidReplies(w: Window, replies: seq<string>): (vs: seq<string>)
    ensures |vs| <= |replies|
    ensures forall i :: 0 <= i < |vs| ==> vs[i] in replies && OutputIsValid(w, vs[i])
  {
    if |replies| == 0 then []
    else (if OutputIsValid(w, replies[0]) then [replies[0]] else []) + ValidReplies(w, replies[1..])
  }

  /** Every valid reply is kept. */
  lemma {:induction false} ValidRepliesMeaning(w: Window, replies: seq<string>)
    ensures forall i :: 0 <= i < |replies| && OutputIsValid(w, replies[i]) ==> replies[i] in ValidReplies(w, replies)
  {
    if |replies| > 0 {
      ValidRepliesMeaning(w, replies[1..]);
      assert forall i :: 1 <= i < |replies| ==> replies[i] == replies[1..][i - 1];
    }
  }

  /** A single valid reply is the one `singleOutputRead` returns. */
  lemma ValidReplyKept(w: Window, line: string)
    requires OutputIsValid(w, line)
    ensures ValidReplies(w, [line]) == [line]
  {
    assert [line][1..] == [];
  }

  /** `singleOutputRead`: the index of the first reply that passes the validator, or
      `None` while none has (the source keeps writing `<GET_ALL;>` and reading). */
  method SingleOutputRead(w: Window, replies: seq<string>) returns (r: Option<nat>)
    ensures r.Some? ==> r.value < |replies| && OutputIsValid(w, replies[r.value])
    ensures r.Some? ==> forall j :: 0 <= j < r.value ==> !OutputIsValid(w, replies[j])
    ensures r.None? <==> forall j :: 0 <= j < |replies| ==> !OutputIsValid(w, replies[j])
    ensures r.Some? ==> |ValidReplies(w, replies)| > 0 && ValidReplies(w, replies)[0] == replies[r.value]
  {
    var i := 0;
    while i < |replies|
      invariant 0 <= i <= |replies|
      invariant forall j :: 0 <= j < i ==> !OutputIsValid(w, replies[j])
      invariant ValidReplies(w, replies) == ValidReplies(w, replies[i..])
    {
      assert replies[i..][1..] == replies[i + 1..];
      if OutputIsValid(w, replies[i]) {
        return Some(i);
      }
      i := i + 1;
    }
    return None;
  }

  /** What one telemetry cycle does with the reply line it read. */
  datatype CycleResult = Store(frame: Frame) | Skip | Crash

  /** One cycle of `DB_routine` as written: an invalid line is logged and skipped; a
      valid line is decoded and written to the store, and a decode panic ends the
      process. */
  function TelemetryCycle(line: string): (r: CycleResult)
    ensures r == Skip <==> !OutputIsValid(Unbounded, line)
    ensures r.Store? ==> Decode(line) == Some(r.frame)
  {
    if OutputIsValid(Unbounded, line) then
      match Decode(line)
      case None => Crash
      case Some(f) => Store(f)
    else Skip
  }

  /** One telemetry cycle that skips every line it cannot decode. */
  function TelemetryCycleSafe(line: string): (r: CycleResult)
    ensures r != Crash
    ensures r.Store? <==> OutputIsValid(Unbounded, line) && Decode(line).Some?
    ensures r.Store? ==> Decode(line) == Some(r.frame)
  {
    if OutputIsValid(Unbounded, line) then
      match Decode(line)
      case None => Skip
      case Some(f) => Store(f)
    else Skip
  }

  /** Both cycles store the same frame whenever the line decodes, and skip the same
      lines otherwise, except that a valid undecodable line crashes one and is skipped
      by the other. */
  lemma SafeCycleAgrees(line: string)
    ensures TelemetryCycle(line) != Crash ==> TelemetryCycleSafe(line) == TelemetryCycle(line)
    ensures TelemetryCycle(line) == Crash <==> OutputIsValid(Unbounded, line) && Decode(line).None?
  {
  }

  /** A line of fewer than 28 well-formed fields is skipped, and nothing is stored. */
  lemma TooFewFieldsSkipped(fs: seq<Field>)
    requires |fs| < MinMatches
    requires forall i :: 0 <= i < |fs| ==> WellFormed(fs[i])
    ensures TelemetryCycle(Line(fs)) == Skip && TelemetryCycleSafe(Line(fs)) == Skip
  {
    TooFewFieldsRejected(Unbounded, fs);
  }

  /** A 196-character line whose first field `V00=zz` is well formed for the pattern but
      is not hexadecimal, followed by 27 copies of `T01=12;`. */
  function UndecodableLine(): string
  {
    Line([Field("V00", "zz")] + Repeat(Field("T01", "12"), 27))
  }

  /** Both validators accept the line: it has 28 well-formed fields, starts with
      `V00=` and is 196 characters long. */
  lemma UndecodableLineIsValid()
    ensures OutputIsValid(Unbounded, UndecodableLine()) && OutputIsValid(Bounded, UndecodableLine())
  {
    var fs := [Field("V00", "zz")] + Repeat(Field("T01", "12"), 27);
    RepeatLength(Field("T01", "12"), 27);
    assert fs[1..] == Repeat(Field("T01", "12"), 27);
    assert |Line(fs)| == 196;
    FieldLineIsValid(Bounded, fs);
    BoundedIsUnboundedBelow215(Line(fs));
  }

  /** `outputToMap` panics on the line: `zz` is not hexadecimal. */
  lemma UndecodableLineFails()
    ensures Decode(UndecodableLine()) == None
  {
    var fs := [Field("V00", "zz")] + Repeat(Field("T01", "12"), 27);
    assert forall j :: 0 <= j < |fs| ==> fs[j] == Field("V00", "zz") || fs[j] == Field("T01", "12");
    HexFieldFails();
    FieldFailureFailsLine(fs, 0);
  }

  /** The piece `V00=zz` does not decode. */
  lemma HexFieldFails()
    ensures DecodeField("V00" + "=" + "zz").None?
  {
    DecodeFieldOf("V00", "zz");
    BaseOfName("V00");
    ParseExamples();
  }

  /** Both validators accept a line that `outputToMap` cannot decode, so the telemetry
      routine as written crashes on it, where the safe cycle skips it. */
  lemma ValidLineMayNotDecode()
    ensures OutputIsValid(Unbounded, UndecodableLine()) && Decode(UndecodableLine()) == None
    ensures TelemetryCycle(UndecodableLine()) == Crash
    ensures TelemetryCycleSafe(UndecodableLine()) == Skip
  {
    UndecodableLineIsValid();
    UndecodableLineFails();
  }
}
