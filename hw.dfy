/**
 * hw.cpp: candidates with a separate name and surname. A candidate exists only
 * when its invariant holds; each constructor checks it with `assert`, so a
 * violation ends the process (here `None`, `AssertFailed` or
 * `Stop(AssertionFailure)`) instead of producing a record.
 */
module HwProgram {
  import opened Wrappers
  import opened Utf8
  import opened Fractions
  import opened Tokens
  import opened Collector
  import opened Commands

  const MaxFioFieldLength: nat := 30
  const MinAge: nat := 21
  const MaxAge: nat := 120

  datatype Candidate = Candidate(name: string, surname: string, age: uint32, income: uint32, fraction: Fraction, voices: uint32)

  /**
   * Candidate::invariant: name and surname are non-empty and at most 30 bytes
   * long, the age is in 21..120; income, fraction and voices are unconstrained.
   * A valid name therefore has between 1 and 30 characters.
   */
  predicate Invariant(c: Candidate)
    ensures Invariant(c) ==> 1 <= |c.name| <= MaxFioFieldLength && 1 <= |c.surname| <= MaxFioFieldLength
  {
    ByteSize(c.name) <= MaxFioFieldLength && ByteSize(c.surname) <= MaxFioFieldLength
    && c.age as int <= MaxAge && c.age as int >= MinAge
    && c.name != [] && c.surname != []
  }

  /** The constructor from typed fields, used by the record reader. */
  function New(name: string, surname: string, age: uint32, income: uint32, fraction: Fraction, voices: uint32): (r: Option<Candidate>)
    ensures r.Some? <==> 1 <= ByteSize(name) <= 30 && 1 <= ByteSize(surname) <= 30 && 21 <= age as int <= 120
    ensures r.Some? ==> r.value == Candidate(name, surname, age, income, fraction, voices)
  {
    var c := Candidate(name, surname, age, income, fraction, voices);
    if Invariant(c) then Some(c) else None
  }

  /**
   * The constructor from C strings and `unsigned long` numbers, used by `add`
   * and `update`: the numbers are narrowed to `uint` and the fraction text goes
   * through the converter before the invariant is checked.
   */
  function FromText(name: string, surname: string, age: nat, income: nat, fraction: string, voices: nat): (r: Option<Candidate>)
    ensures r.Some? <==> 1 <= ByteSize(name) <= 30 && 1 <= ByteSize(surname) <= 30 && 21 <= age % 0x1_0000_0000 <= 120
    ensures r.Some? ==> r.value.name == name && r.value.surname == surname && r.value.fraction == ToFraction(fraction)
    ensures r.Some? ==> r.value.age == Narrow(age) && r.value.income == Narrow(income) && r.value.voices == Narrow(voices)
  {
    New(name, surname, Narrow(age), Narrow(income), ToFraction(fraction), Narrow(voices))
  }

  /** Ages 15 and 200 are refused; an unrecognised fraction is accepted as `Unknown`. */
  lemma FromTextExamples()
    ensures FromText("Ivan", "Petrov", 15, 60000, "EDRO", 1200).None?
    ensures FromText("Ivan", "Petrov", 200, 60000, "EDRO", 1200).None?
    ensures FromText("Ivan", "Petrov", 45, 60000, "MARTIANS", 1200) == Some(Candidate("Ivan", "Petrov", 45, 60000, Unknown, 1200))
  {
  }

  /**
   * The limit counts bytes: a surname of 19 Cyrillic letters takes 38 bytes and
   * is refused, although it has fewer than 30 characters.
   */
  lemma FromTextCountsBytes()
    ensures FromText("Ivan", "Константинопольский", 45, 60000, "EDRO", 1200).None?
  {
    WideSize("Константинопольский");
  }

  /** The narrowing happens before the check: an age of 2^32 + 45 is stored as 45 and accepted. */
  lemma FromTextWrapsAge()
    ensures FromText("Ivan", "Petrov", 0x1_0000_0000 + 45, 60000, "EDRO", 1200) == Some(Candidate("Ivan", "Petrov", 45, 60000, Edro, 1200))
  {
  }

  /** The fields of a stored record, in stream order, with the reader's length limits. */
  const RecordLayout: seq<FieldKind> := [Text(MaxFioFieldLength), Text(MaxFioFieldLength), Number, Number, Text(MaxFractionLength), Number]

  /**
   * Candidate::write: the fraction is stored by name, so it must have one. A
   * valid candidate is written within the limits the reader checks.
   */
  function Write(c: Candidate): (w: seq<Token>)
    requires c.fraction != Unknown
    ensures |w| == |RecordLayout|
    ensures Invariant(c) ==> Fits(w, RecordLayout)
  {
    [Str(c.name), Str(c.surname), Num(c.age), Num(c.income), Str(ToString(c.fraction)), Num(c.voices)]
  }

  /**
   * ItemCollector::read: the same six fields in the same order; the fraction
   * text goes through the converter and the typed constructor checks the
   * invariant. A decoded record always satisfies the invariant and takes
   * exactly six tokens.
   */
  function Read(ts: seq<Token>): (r: Decoding<Candidate>)
    ensures r.Decoded? ==> Invariant(r.item)
    ensures r.Decoded? ==> |ts| >= |RecordLayout| && r.rest == ts[|RecordLayout|..]
  {
    var name := ReadString(ts, MaxFioFieldLength);
    if name.None? then Malformed else
    var surname := ReadString(name.value.rest, MaxFioFieldLength);
    if surname.None? then Malformed else
    var age := ReadNumber(surname.value.rest);
    if age.None? then Malformed else
    var income := ReadNumber(age.value.rest);
    if income.None? then Malformed else
    var fraction := ReadString(income.value.rest, MaxFractionLength);
    if fraction.None? then Malformed else
    var voices := ReadNumber(fraction.value.rest);
    if voices.None? then Malformed else
    match New(name.value.value, surname.value.value, age.value.value, income.value.value,
              ToFraction(fraction.value.value), voices.value.value)
    case None => AssertFailed
    case Some(c) => Decoded(c, voices.value.rest)
  }

  /** Reading back what `write` emitted yields the same candidate and leaves the rest of the stream. */
  lemma RoundTrip(c: Candidate, rest: seq<Token>)
    requires Invariant(c) && c.fraction != Unknown
    ensures Read(Write(c) + rest) == Decoded(c, rest)
  {
    // The steps below only unfold `Read`; they keep the proof stable across solver seeds.
    var ts := Write(c) + rest;
    assert ts[0] == Str(c.name) && ts[1] == Str(c.surname) && ts[2] == Num(c.age);
    assert ts[3] == Num(c.income) && ts[4] == Str(ToString(c.fraction)) && ts[5] == Num(c.voices);
    assert ts[1..][1..][1..][1..][1..][1..] == rest;
    CodeRoundTrip(c.fraction);
  }

  /** `read` fails as malformed exactly when the stream does not start with the six fields of the layout. */
  lemma ReadMalformedIff(ts: seq<Token>)
    ensures Read(ts).Malformed? <==> !(|ts| >= |RecordLayout| && Fits(ts[..|RecordLayout|], RecordLayout))
  {
    if |ts| >= |RecordLayout| && Fits(ts[..|RecordLayout|], RecordLayout) {
      var p := ts[..|RecordLayout|];
      assert FitsKind(p[0], RecordLayout[0]) && FitsKind(p[1], RecordLayout[1]) && FitsKind(p[2], RecordLayout[2]);
      assert FitsKind(p[3], RecordLayout[3]) && FitsKind(p[4], RecordLayout[4]) && FitsKind(p[5], RecordLayout[5]);
      assert ts[1..][1..][1..][1..][1..][0] == ts[5];
    } else if |ts| >= |RecordLayout| {
      var p := ts[..|RecordLayout|];
      var k :| 0 <= k < |p| && !FitsKind(p[k], RecordLayout[k]);
      assert ts[1..][1..][1..][1..][1..][0] == ts[5];
    }
  }

  /**
   * On a well-formed stream, `read` yields the candidate built from the fields,
   * with an unrecognised fraction name read as `Unknown`, when name, surname and
   * age satisfy the invariant, and aborts on the constructor's assert otherwise.
   */
  lemma ReadFields(name: string, surname: string, age: uint32, income: uint32, fraction: string, voices: uint32, rest: seq<Token>)
    requires ByteSize(name) <= MaxFioFieldLength && ByteSize(surname) <= MaxFioFieldLength && ByteSize(fraction) <= MaxFractionLength
    ensures Read([Str(name), Str(surname), Num(age), Num(income), Str(fraction), Num(voices)] + rest) ==
      if name != [] && surname != [] && 21 <= age as int <= 120
      then Decoded(Candidate(name, surname, age, income, ToFraction(fraction), voices), rest)
      else AssertFailed
  {
    // The steps below only unfold `Read`; they keep the proof stable across solver seeds.
    var ts := [Str(name), Str(surname), Num(age), Num(income), Str(fraction), Num(voices)] + rest;
    var t1, t2, t3 := ts[1..], ts[2..], ts[3..];
    var t4, t5, t6 := ts[4..], ts[5..], ts[6..];
    assert t1[1..] == t2 && t2[1..] == t3 && t3[1..] == t4 && t4[1..] == t5 && t5[1..] == t6 == rest;
    assert ReadString(ts, MaxFioFieldLength) == Some(Field(name, t1));
    assert ReadString(t1, MaxFioFieldLength) == Some(Field(surname, t2));
    assert ReadNumber(t2) == Some(Field(age, t3));
    assert ReadNumber(t3) == Some(Field(income, t4));
    assert ReadString(t4, MaxFractionLength) == Some(Field(fraction, t5));
    assert ReadNumber(t5) == Some(Field(voices, rest));
  }

  /**
   * Number of arguments, command word included, each command needs (none for
   * load and save): `add` takes one argument per record field, `update` an
   * index as well, `remove` only the index.
   */
  function Arity(v: Verb): (a: Option<nat>)
    ensures a.None? <==> v == LoadVerb || v == SaveVerb
    ensures v == AddVerb ==> a == Some(1 + |RecordLayout|)
    ensures v == UpdateVerb ==> a == Some(2 + |RecordLayout|)
  {
    match v
    case LoadVerb => None
    case SaveVerb => None
    case CleanVerb => Some(1)
    case AddVerb => Some(7)
    case RemoveVerb => Some(2)
    case UpdateVerb => Some(8)
    case ViewVerb => Some(1)
  }

  /** Whether a record's fraction can be printed by name. */
  predicate Nameable(c: Candidate) {
    c.fraction != Unknown
  }

  /**
   * The `make_shared<Candidate>(...)` of `add` and `update` from six argument
   * strings: name, surname, age, income, fraction, voices. `stoul` is given the
   * three numbers; an exception from it ends the process, and so does the
   * constructor's assert.
   */
  function BuildRecord(fields: seq<string>, stoul: string -> Option<nat>): (r: Parsed<Candidate>)
    requires |fields| == 6
    ensures r == Failed(UncaughtException) <==> stoul(fields[2]).None? || stoul(fields[3]).None? || stoul(fields[5]).None?
    ensures r.Parsed? <==> stoul(fields[2]).Some? && stoul(fields[3]).Some? && stoul(fields[5]).Some?
                           && 1 <= ByteSize(fields[0]) <= 30 && 1 <= ByteSize(fields[1]) <= 30
                           && 21 <= stoul(fields[2]).value % 0x1_0000_0000 <= 120
    ensures r.Parsed? ==> Invariant(r.value) && r.value.name == fields[0] && r.value.surname == fields[1]
                          && r.value.fraction == ToFraction(fields[4])
    ensures r.Parsed? ==> r.value.age == Narrow(stoul(fields[2]).value) && r.value.income == Narrow(stoul(fields[3]).value)
                          && r.value.voices == Narrow(stoul(fields[5]).value)
  {
    var age, income, voices := stoul(fields[2]), stoul(fields[3]), stoul(fields[5]);
    if age.None? || income.None? || voices.None? then Failed(UncaughtException)
    else match FromText(fields[0], fields[1], age.value, income.value, fields[4], voices.value)
      case None => Failed(AssertionFailure)
      case Some(c) => Parsed(c)
  }

  /**
   * The argument handling of performCommand: the command word, the argument
   * count each command needs, the default file name, and the record or index
   * built from the arguments.
   */
  function Dispatch(args: seq<string>, stoul: string -> Option<nat>): (d: Decision<Candidate>)
    ensures d.Reject? <==>
      args == [] || Classify(args[0]).None? ||
      (Arity(Classify(args[0]).value).Some? && |args| != Arity(Classify(args[0]).value).value)
    ensures args != [] && Classify(args[0]) == Some(LoadVerb) ==>
      d == Run(Load(if |args| == 1 then DefaultFileName else args[1]))
    ensures args != [] && Classify(args[0]) == Some(SaveVerb) ==>
      d == Run(Save(if |args| == 1 then DefaultFileName else args[1]))
    ensures args == ["c"] || args == ["clean"] ==> d == Run(Clean)
    ensures args == ["v"] || args == ["view"] ==> d == Run(View)
    ensures d.Stop? ==> args != [] && Classify(args[0]) in {Some(AddVerb), Some(RemoveVerb), Some(UpdateVerb)}
    ensures d.Run? ==> args != [] && Classify(args[0]) == Some(VerbOf(d.cmd))
    ensures d.Run? && d.cmd.Add? ==> |args| == 7 && BuildRecord(args[1..], stoul) == Parsed(d.cmd.item)
    ensures d.Run? && d.cmd.Remove? ==> |args| == 2 && stoul(args[1]) == Some(d.cmd.index)
    ensures d.Run? && d.cmd.Update? ==>
      |args| == 8 && stoul(args[1]) == Some(d.cmd.index) && BuildRecord(args[2..], stoul) == Parsed(d.cmd.item)
  {
    if args == [] then Reject
    else match Classify(args[0])
      case None => Reject
      case Some(LoadVerb) => Run(Load(if |args| == 1 then DefaultFileName else args[1]))
      case Some(SaveVerb) => Run(Save(if |args| == 1 then DefaultFileName else args[1]))
      case Some(CleanVerb) => if |args| != 1 then Reject else Run(Clean)
      case Some(AddVerb) =>
        if |args| != 7 then Reject
        else (match BuildRecord(args[1..], stoul)
          case Failed(h) => Stop(h)
          case Parsed(c) => Run(Add(c)))
      case Some(RemoveVerb) =>
        if |args| != 2 then Reject
        else (match stoul(args[1])
          case None => Stop(UncaughtException)
          case Some(i) => Run(Remove(i)))
      case Some(UpdateVerb) =>
        if |args| != 8 then Reject
        else (match stoul(args[1])
          case None => Stop(UncaughtException)
          case Some(i) =>
            match BuildRecord(args[2..], stoul)
            case Failed(h) => Stop(h)
            case Parsed(c) => Run(Update(i, c)))
      case Some(ViewVerb) => if |args| != 1 then Reject else Run(View)
  }

  /**
   * A command line with the right command word and argument count reaches the
   * collector exactly when its arguments convert: `add` appends the record built
   * from `args[1..6]`, `remove` removes slot `stoul(args[1])`, `update` replaces
   * that slot with the record built from `args[2..7]`; otherwise the process
   * stops for the reason building the value gives.
   */
  lemma DispatchCompletes(args: seq<string>, stoul: string -> Option<nat>)
    ensures args != [] && Classify(args[0]) == Some(AddVerb) && |args| == 7 ==>
      Dispatch(args, stoul) == (if BuildRecord(args[1..], stoul).Failed? then Stop(BuildRecord(args[1..], stoul).reason)
            else Run(Add(BuildRecord(args[1..], stoul).value)))
    ensures args != [] && Classify(args[0]) == Some(RemoveVerb) && |args| == 2 ==>
      Dispatch(args, stoul) == (if stoul(args[1]).None? then Stop(UncaughtException) else Run(Remove(stoul(args[1]).value)))
    ensures args != [] && Classify(args[0]) == Some(UpdateVerb) && |args| == 8 ==>
      Dispatch(args, stoul) == (if stoul(args[1]).None? then Stop(UncaughtException)
            else if BuildRecord(args[2..], stoul).Failed? then Stop(BuildRecord(args[2..], stoul).reason)
            else Run(Update(stoul(args[1]).value, BuildRecord(args[2..], stoul).value)))
  {
  }

  /** Once `add` or `update` has the right number of arguments, the command never returns false. */
  lemma AddUpdateNeverReject(args: seq<string>, stoul: string -> Option<nat>)
    requires args != [] && Classify(args[0]) in {Some(AddVerb), Some(UpdateVerb)}
    requires |args| == Arity(Classify(args[0]).value).value
    ensures !Dispatch(args, stoul).Reject?
  {
  }

  /** performCommand on the collector. */
  method PerformCommand(args: seq<string>, col: Collector<Candidate>, stoul: string -> Option<nat>) returns (outcome: Outcome<Candidate>)
    modifies col
    ensures Dispatch(args, stoul).Reject? ==> outcome == Returned(false) && col.slots == old(col.slots)
    ensures Dispatch(args, stoul).Stop? ==> outcome == Halted(Dispatch(args, stoul).reason) && col.slots == old(col.slots)
    ensures Dispatch(args, stoul) == Run(Clean) ==> outcome == Returned(true) && col.slots == []
    ensures Dispatch(args, stoul).Run? && Dispatch(args, stoul).cmd.Add? ==>
      outcome == Returned(true) && col.slots == Appended(old(col.slots), Dispatch(args, stoul).cmd.item)
    ensures Dispatch(args, stoul).Run? && Dispatch(args, stoul).cmd.Remove? ==>
      var i := Dispatch(args, stoul).cmd.index;
      if i < |old(col.slots)|
      then outcome == Returned(true) && col.slots == MarkRemoved(old(col.slots), i)
      else outcome == Undefined
    ensures Dispatch(args, stoul).Run? && Dispatch(args, stoul).cmd.Update? ==>
      var i := Dispatch(args, stoul).cmd.index;
      if i < |old(col.slots)|
      then outcome == Returned(true) && col.slots == Replaced(old(col.slots), i, Dispatch(args, stoul).cmd.item)
      else outcome == Undefined
    ensures Dispatch(args, stoul) == Run(View) ==> col.slots == old(col.slots)
    ensures Dispatch(args, stoul) == Run(View) ==>
      outcome == (if LivePrintable(col.slots, Nameable)
                  then Listed(Listing(col.slots), |LiveSet(col.slots)|)
                  else Undefined)
    ensures Dispatch(args, stoul).Run? && Dispatch(args, stoul).cmd.Load? ==>
      outcome == FileCall(LoadFile, Dispatch(args, stoul).cmd.filename) && col.slots == old(col.slots)
    ensures Dispatch(args, stoul).Run? && Dispatch(args, stoul).cmd.Save? ==>
      outcome == FileCall(SaveFile, Dispatch(args, stoul).cmd.filename) && col.slots == old(col.slots)
  {
    outcome := Execute(Dispatch(args, stoul), col, Nameable);
  }

  /** The number conversions the scenario below needs. */
  function ScenarioNumbers(s: string): Option<nat> {
    if s == "45" then Some(45) else if s == "60000" then Some(60000)
    else if s == "1200" then Some(1200) else if s == "0" then Some(0) else None
  }

  /** One live slot is listed as row 0 with count 1; once removed, nothing is listed. */
  lemma SingleSlotListing(x: Candidate)
    ensures Listing([Slot(x, false)]) == [Row(0, x)] && |LiveSet([Slot(x, false)])| == 1
    ensures Listing([Slot(x, true)]) == [] && |LiveSet([Slot(x, true)])| == 0
  {
    var live, gone := [Slot(x, false)], [Slot(x, true)];
    assert ListingBelow(live, 0) == [] && ListingBelow(gone, 0) == [];
    assert Listing(live) == ListingBelow(live, 0) + [Row(0, x)];
    assert Listing(gone) == ListingBelow(gone, 0);
    assert LiveSet(live) == {0};
    assert LiveSet(gone) == {};
  }

  /** The decisions the four command lines of the session below come to. */
  lemma SessionDecisions(petrov: Candidate)
    requires petrov == Candidate("Ivan", "Petrov", 45, 60000, Edro, 1200)
    ensures Dispatch(["add", "Ivan", "Petrov", "45", "60000", "EDRO", "1200"], ScenarioNumbers) == Run(Add(petrov))
    ensures Dispatch(["view"], ScenarioNumbers) == Run(View)
    ensures Dispatch(["remove", "0"], ScenarioNumbers) == Run(Remove(0))
    ensures Dispatch(["v"], ScenarioNumbers) == Run(View)
  {
    var addArgs := ["add", "Ivan", "Petrov", "45", "60000", "EDRO", "1200"];
    assert addArgs[1..] == ["Ivan", "Petrov", "45", "60000", "EDRO", "1200"];
    assert FromText("Ivan", "Petrov", 45, 60000, "EDRO", 1200) == Some(petrov);
    assert BuildRecord(addArgs[1..], ScenarioNumbers) == Parsed(petrov);
    assert Classify("remove") == Some(RemoveVerb) && ScenarioNumbers("0") == Some(0);
  }

  /**
   * A short session: add one candidate, view it, remove it, view again. The
   * first view prints row 0 and the count 1, the second prints no row and the
   * count 0.
   */
  method RemoveThenViewScenario()
  {
    var petrov := Candidate("Ivan", "Petrov", 45, 60000, Edro, 1200);
    var col := new Collector<Candidate>();
    SessionDecisions(petrov);
    SingleSlotListing(petrov);

    var added := PerformCommand(["add", "Ivan", "Petrov", "45", "60000", "EDRO", "1200"], col, ScenarioNumbers);
    assert added == Returned(true) && col.slots == [Slot(petrov, false)];

    assert LivePrintable(col.slots, Nameable);
    var shown := PerformCommand(["view"], col, ScenarioNumbers);
    assert shown == Listed([Row(0, petrov)], 1);

    var removed := PerformCommand(["remove", "0"], col, ScenarioNumbers);
    assert removed == Returned(true) && col.slots == [Slot(petrov, true)];

    var shownAgain := PerformCommand(["v"], col, ScenarioNumbers);
    assert shownAgain == Listed([], 0);
  }
}
