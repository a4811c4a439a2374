/**
 * What `performCommand` shares between the two programs: the command words,
 * the default file name, the decision a command line comes to, the `view`
 * loop, and the effect of a decision on the collector. The argument counts and
 * the way a record is built from the arguments differ per program and live in
 * HwProgram and MainProgram.
 */
module Commands {
  import opened Wrappers
  import opened Collector

  datatype Verb = LoadVerb | SaveVerb | CleanVerb | AddVerb | RemoveVerb | UpdateVerb | ViewVerb

  function ShortName(v: Verb): string {
    match v
    case LoadVerb => "l"
    case SaveVerb => "s"
    case CleanVerb => "c"
    case AddVerb => "a"
    case RemoveVerb => "r"
    case UpdateVerb => "u"
    case ViewVerb => "v"
  }

  function LongName(v: Verb): string {
    match v
    case LoadVerb => "load"
    case SaveVerb => "save"
    case CleanVerb => "clean"
    case AddVerb => "add"
    case RemoveVerb => "remove"
    case UpdateVerb => "update"
    case ViewVerb => "view"
  }

  /** The chain of `args[0] == "x" || args[0] == "xyz"` tests, in the program's order. */
  function Classify(word: string): (v: Option<Verb>)
    ensures v.Some? ==> word == ShortName(v.value) || word == LongName(v.value)
    ensures v.None? ==> forall u: Verb :: word != ShortName(u) && word != LongName(u)
  {
    if word == "l" || word == "load" then Some(LoadVerb)
    else if word == "s" || word == "save" then Some(SaveVerb)
    else if word == "c" || word == "clean" then Some(CleanVerb)
    else if word == "a" || word == "add" then Some(AddVerb)
    else if word == "r" || word == "remove" then Some(RemoveVerb)
    else if word == "u" || word == "update" then Some(UpdateVerb)
    else if word == "v" || word == "view" then Some(ViewVerb)
    else None
  }

  const DefaultFileName: string := "hw.data"

  /** Why the process stops inside a command instead of returning from it. */
  datatype Halt =
    | UncaughtException  // stoul rejected a numeric argument
    | AssertionFailure   // a Candidate constructor's assert(invariant())

  datatype Command<T> =
    | Load(filename: string)
    | Save(filename: string)
    | Clean
    | Add(item: T)
    | Remove(index: nat)
    | Update(index: nat, item: T)
    | View

  /** The command word that asks for a command. */
  function VerbOf<T>(c: Command<T>): Verb {
    match c
    case Load(_) => LoadVerb
    case Save(_) => SaveVerb
    case Clean => CleanVerb
    case Add(_) => AddVerb
    case Remove(_) => RemoveVerb
    case Update(_, _) => UpdateVerb
    case View => ViewVerb
  }

  /** A value built from command arguments, or the reason building it ends the process. */
  datatype Parsed<T> = Parsed(value: T) | Failed(reason: Halt)

  /** What a command line comes to before the collector is touched. */
  datatype Decision<T> = Run(cmd: Command<T>) | Reject | Stop(reason: Halt)

  datatype FileOp = LoadFile | SaveFile

  /**
   * The result of `performCommand`. `Returned(ok)` is its boolean result;
   * `Listed` is `view`'s true result with the rows and count it prints;
   * `FileCall` hands the named file to loadCollection/saveCollection, whose
   * result becomes the command's; `Halted` ends the process; `Undefined` is a
   * call outside the collector's or the converter's contract.
   */
  datatype Outcome<T> =
    | Returned(ok: bool)
    | Listed(rows: seq<Row<T>>, count: nat)
    | FileCall(op: FileOp, filename: string)
    | Halted(reason: Halt)
    | Undefined

  /**
   * The `view` loop: walk every slot, print the live ones with their index and
   * count them. `defined` is false when a live record's fraction has no name,
   * where Converter::toString dereferences a missing map entry.
   */
  method ViewSlots<T>(col: Collector<T>, printable: T -> bool) returns (defined: bool, rows: seq<Row<T>>, count: nat)
    ensures rows == Listing(col.slots)
    ensures count == |rows| == |LiveSet(col.slots)|
    ensures defined <==> LivePrintable(col.slots, printable)
  {
    defined, rows, count := true, [], 0;
    var i := 0;
    while i < col.GetSize()
      invariant i <= |col.slots|
      invariant rows == ListingBelow(col.slots, i)
      invariant count == |rows|
      invariant defined <==> forall j :: 0 <= j < i && !col.slots[j].removed ==> printable(col.slots[j].item)
    {
      var item := col.GetItem(i);
      if !col.IsRemoved(i) {
        defined := defined && printable(item);
        rows := rows + [Row(i, item)];
        count := count + 1;
      }
      i := i + 1;
    }
    ListingSpec(col.slots);
  }

  /**
   * Carries out a decision on the collector: reject and stop leave it alone,
   * clean empties it, add appends a live slot, remove and update change one
   * slot when the index is in range, view prints the listing.
   */
  method Execute<T>(d: Decision<T>, col: Collector<T>, printable: T -> bool) returns (outcome: Outcome<T>)
    modifies col
    ensures d.Reject? ==> outcome == Returned(false) && col.slots == old(col.slots)
    ensures d.Stop? ==> outcome == Halted(d.reason) && col.slots == old(col.slots)
    ensures d.Run? && d.cmd.Load? ==> outcome == FileCall(LoadFile, d.cmd.filename) && col.slots == old(col.slots)
    ensures d.Run? && d.cmd.Save? ==> outcome == FileCall(SaveFile, d.cmd.filename) && col.slots == old(col.slots)
    ensures d.Run? && d.cmd.Clean? ==> outcome == Returned(true) && col.slots == []
    ensures d.Run? && d.cmd.Add? ==> outcome == Returned(true) && col.slots == Appended(old(col.slots), d.cmd.item)
    ensures d.Run? && d.cmd.Remove? ==>
      if d.cmd.index < |old(col.slots)|
      then outcome == Returned(true) && col.slots == MarkRemoved(old(col.slots), d.cmd.index)
      else outcome == Undefined && col.slots == old(col.slots)
    ensures d.Run? && d.cmd.Update? ==>
      if d.cmd.index < |old(col.slots)|
      then outcome == Returned(true) && col.slots == Replaced(old(col.slots), d.cmd.index, d.cmd.item)
      else outcome == Undefined && col.slots == old(col.slots)
    ensures d.Run? && d.cmd.View? ==> col.slots == old(col.slots)
    ensures d.Run? && d.cmd.View? ==>
      outcome == (if LivePrintable(col.slots, printable)
                  then Listed(Listing(col.slots), |LiveSet(col.slots)|)
                  else Undefined)
  {
    match d
    case Reject =>
      outcome := Returned(false);
    case Stop(reason) =>
      outcome := Halted(reason);
    case Run(cmd) =>
      match cmd
      case Load(filename) =>
        outcome := FileCall(LoadFile, filename);
      case Save(filename) =>
        outcome := FileCall(SaveFile, filename);
      case Clean =>
        col.Clean();
        outcome := Returned(true);
      case Add(item) =>
        col.AddItem(item);
        outcome := Returned(true);
      case Remove(index) =>
        if index < col.GetSize() {
          col.RemoveItem(index);
          outcome := Returned(true);
        } else {
          outcome := Undefined;
        }
      case Update(index, item) =>
        if index < col.GetSize() {
          col.UpdateItem(index, item);
          outcome := Returned(true);
        } else {
          outcome := Undefined;
        }
      case View =>
        var defined, rows, count := ViewSlots(col, printable);
        outcome := if defined then Listed(rows, count) else Undefined;
  }
}
