/** process.c: the argument parser of the older front end and the fourcc
    classification of an input file. Options change the caller's current
    input options; a file name seen before takes those options, and the
    current options go back to the defaults. The help printer is a
    function the caller passes in; opening and reading the file are I/O
    and arrive as parameters. */
module ProcessArgs {
  import opened Wrappers
  import opened Bytes
  import opened LibUtil
  import IA = InputArgs

  /** The input types of input_optionsT. */
  datatype ProcType = Unk | Ogg | Wem | Wsp | Bnk

  /** input_optionsT, with the fields process.c reads or writes. */
  datatype ProcOptions = ProcOptions(kind: ProcType, bankRecurse: bool, autoOgg: bool, inplaceOgg: bool,
    autoRevorb: bool, inplaceRevorb: bool, logEnabled: bool, logColorEnabled: bool, logDebug: bool,
    logPriority: int, dryRun: bool)

  /** Options cleared to zero. */
  const ZeroOptions := ProcOptions(Unk, false, false, false, false, false, false, false, false, 0, false)

  /** inputT: a file name and the options it is processed with. */
  datatype ProcInput = ProcInput(path: string, options: ProcOptions)

  // ---------------------------------------------------------------------
  // input_delete

  /** input_delete: the name is freed (left empty) and the options are
      zeroed; a NULL input is left alone. */
  function Deleted(input: Option<ProcInput>): (r: Option<ProcInput>)
    ensures r.Some? <==> input.Some?
    ensures r.Some? ==> r.value.path == [] && r.value.options == ZeroOptions
  {
    match input
    case None => None
    case Some(_) => Some(ProcInput([], ZeroOptions))
  }

  // ---------------------------------------------------------------------
  // find_argument

  /** The names of the first `count` inputs, NULL when the array is. */
  function ListOf(inputs: array?<ProcInput>, count: nat): (l: Option<seq<ProcInput>>)
    requires inputs != null ==> count <= inputs.Length
    reads inputs
    ensures l.Some? <==> inputs != null
    ensures l.Some? ==> |l.value| == count
  {
    if inputs == null then None else Some(inputs[..count])
  }

  function Paths(inputs: seq<ProcInput>): (p: seq<string>)
    ensures |p| == |inputs| && forall i :: 0 <= i < |inputs| ==> p[i] == inputs[i].path
  {
    if inputs == [] then [] else [inputs[0].path] + Paths(inputs[1..])
  }

  /** What find_argument answers: nothing for a NULL list, an empty one or
      a NULL argument, otherwise the first input whose name equals it. */
  function Found(arg: Option<string>, inputs: Option<seq<ProcInput>>): (r: Option<nat>)
    ensures r.Some? ==> (arg.Some? && inputs.Some? && r.value < |inputs.value|
      && inputs.value[r.value].path == arg.value
      && forall j :: 0 <= j < r.value ==> inputs.value[j].path != arg.value)
    ensures r.None? <==> (arg.None? || inputs.None?
      || forall j :: 0 <= j < |inputs.value| ==> inputs.value[j].path != arg.value)
  {
    if arg.None? || inputs.None? then None
    else
      var r := IA.FirstIndex(Paths(inputs.value), arg.value);
      assert r.None? ==> forall j :: 0 <= j < |inputs.value| ==> Paths(inputs.value)[j] != arg.value;
      r
  }

  /** find_argument. */
  method FindArgument(arg: Option<string>, inputs: array?<ProcInput>, count: nat) returns (r: Option<nat>)
    requires inputs != null ==> count <= inputs.Length
    ensures r == Found(arg, ListOf(inputs, count))
  {
    if inputs == null || count == 0 || arg.None? {
      return None;
    }
    var i := 0;
    while i < count
      invariant 0 <= i <= count
      invariant forall j :: 0 <= j < i ==> inputs[j].path != arg.value
    {
      if inputs[i].path == arg.value {
        return Some(i);
      }
      i := i + 1;
    }
    return None;
  }

  // ---------------------------------------------------------------------
  // parse_argument

  /** What an option argument does. */
  datatype ProcAction = Help | SetType(kind: ProcType) | ToggleRecurse | ToggleAutoOgg | ToggleInplaceOgg
    | ToggleRevorb | ToggleInplaceRevorb | ToggleLogging | ToggleColor | ToggleDebug | Quieter | Louder
    | ToggleDryRun | ToggleReset | NotAnOption

  /** The chain of comparisons of parse_argument, in order; only the help
      spellings ignore case. */
  const OptionTable: seq<IA.OptionLine<ProcAction>> := [
    IA.OptionLine(false, ["-h", "-help", "--help", "-v", "-version", "--version"], Help),
    IA.OptionLine(true, ["-a", "-auto", "-detect"], SetType(Unk)),
    IA.OptionLine(true, ["-o", "-ogg"], SetType(Ogg)),
    IA.OptionLine(true, ["-w", "-wem", "-weem"], SetType(Wem)),
    IA.OptionLine(true, ["-W", "-wsp", "-wisp"], SetType(Wsp)),
    IA.OptionLine(true, ["-b", "-bnk", "-bank"], SetType(Bnk)),
    IA.OptionLine(true, ["-R", "-recurse-bank"], ToggleRecurse),
    IA.OptionLine(true, ["-O", "-weem2ogg"], ToggleAutoOgg),
    IA.OptionLine(true, ["-oi", "-ogg-inplace"], ToggleInplaceOgg),
    IA.OptionLine(true, ["-r", "-revorb"], ToggleRevorb),
    IA.OptionLine(true, ["-ri", "-rvb-inplace"], ToggleInplaceRevorb),
    IA.OptionLine(true, ["-Q", "-qq", "-too-quiet"], ToggleLogging),
    IA.OptionLine(true, ["-c", "-color"], ToggleColor),
    IA.OptionLine(true, ["-d", "-debug"], ToggleDebug),
    IA.OptionLine(true, ["-q", "-quiet"], Quieter),
    IA.OptionLine(true, ["+q", "+quiet"], Louder),
    IA.OptionLine(true, ["-n", "-dry", "-dryrun"], ToggleDryRun),
    IA.OptionLine(true, ["-reset"], ToggleReset)
  ]

  function ActionOf(arg: string): ProcAction {
    IA.Lookup(arg, OptionTable, NotAnOption)
  }

  /** The current options after an option; `priorityCount` is
      brrlog_priority_count. */
  function OptionsAfter(a: ProcAction, o: ProcOptions, priorityCount: int): ProcOptions {
    match a
    case SetType(k) => o.(kind := k)
    case ToggleRecurse => o.(bankRecurse := !o.bankRecurse)
    case ToggleAutoOgg => o.(autoOgg := !o.autoOgg)
    case ToggleInplaceOgg => o.(inplaceOgg := !o.inplaceOgg)
    case ToggleRevorb => o.(autoRevorb := !o.autoRevorb)
    case ToggleInplaceRevorb => o.(inplaceRevorb := !o.inplaceRevorb)
    case ToggleLogging => o.(logEnabled := !o.logEnabled)
    case ToggleColor => o.(logColorEnabled := !o.logColorEnabled)
    case ToggleDebug => o.(logDebug := !o.logDebug, logEnabled := !o.logDebug || o.logEnabled)
    case Quieter =>
      var p := if o.logPriority > 0 then o.logPriority - 1 else o.logPriority;
      o.(logPriority := p, logEnabled := if p == 0 && !o.logDebug then false else o.logEnabled)
    case Louder =>
      o.(logPriority := if o.logPriority < priorityCount - 1 then o.logPriority + 1 else o.logPriority,
        logEnabled := true)
    case ToggleDryRun => o.(dryRun := !o.dryRun)
    case _ => o
  }

  /** What parse_argument returns, as written: 0 after the help printer
      returns, 0 after "+q" (that branch has no return of its own), 1 for
      every other option, and for a plain argument 1 exactly when it names
      a file seen before. */
  function Answer(a: ProcAction, found: bool): (r: int)
    ensures r == 0 || r == 1
    ensures r == 0 <==> a == Help || a == Louder || (a == NotAnOption && !found)
  {
    match a
    case Help => 0
    case Louder => 0
    case NotAnOption => if found then 1 else 0
    case _ => 1
  }

  /** The answer with "+q" returning 1 like every other option, as the
      other two parsers of the program do. */
  function AnswerIntended(a: ProcAction, found: bool): (r: int)
    ensures r == 0 || r == 1
    ensures r == 1 <==> (a != Help && a != NotAnOption) || (a == NotAnOption && found)
    ensures a != Louder ==> r == Answer(a, found)
  {
    match a
    case Help => 0
    case NotAnOption => if found then 1 else 0
    case _ => 1
  }

  /** The caller's current options and reset flag, which parse_argument
      updates through pointers. */
  class Current {
    var options: ProcOptions
    var reset: bool

    constructor(options: ProcOptions)
      ensures this.options == options && !reset
    {
      this.options := options;
      reset := false;
    }

    /** parse_argument: `helped` tells that the help printer was called. */
    method ParseArgument(arg: string, inputs: array?<ProcInput>, count: nat, defaults: ProcOptions,
      priorityCount: int) returns (r: int, helped: bool)
      requires inputs != null ==> count <= inputs.Length
      modifies this, inputs
      ensures var a := ActionOf(arg);
        var f := if a == NotAnOption then Found(Some(arg), old(ListOf(inputs, count))) else None;
        && helped == (a == Help)
        && r == Answer(a, f.Some?)
        && reset == (if a == ToggleReset then !old(reset) else old(reset))
        && options == (if f.Some? then defaults else OptionsAfter(a, old(options), priorityCount))
        && (inputs != null ==>
          inputs[..] == if f.Some? then old(inputs[..])[f.value := old(inputs[f.value]).(options := old(options))]
          else old(inputs[..]))
    {
      var a := ActionOf(arg);
      r, helped := Apply(a, arg, inputs, count, defaults, priorityCount);
    }

    /** The branch of parse_argument for the action `a` of `arg`. */
    method Apply(a: ProcAction, arg: string, inputs: array?<ProcInput>, count: nat, defaults: ProcOptions,
      priorityCount: int) returns (r: int, helped: bool)
      requires inputs != null ==> count <= inputs.Length
      modifies this, inputs
      ensures var f := if a == NotAnOption then Found(Some(arg), old(ListOf(inputs, count))) else None;
        && helped == (a == Help)
        && r == Answer(a, f.Some?)
        && reset == (if a == ToggleReset then !old(reset) else old(reset))
        && options == (if f.Some? then defaults else OptionsAfter(a, old(options), priorityCount))
        && (inputs != null ==>
          inputs[..] == if f.Some? then old(inputs[..])[f.value := old(inputs[f.value]).(options := old(options))]
          else old(inputs[..]))
    {
      helped := false;
      r := 1;
      match a {
        case Help =>
          helped := true;
          r := 0;
        case ToggleReset =>
          reset := !reset;
        case NotAnOption =>
          var f := FindArgument(Some(arg), inputs, count);
          if f.Some? {
            inputs[f.value] := inputs[f.value].(options := options);
            options := defaults;
          } else {
            r := 0;
          }
        case _ =>
          options := OptionsAfter(a, options, priorityCount);
          r := Answer(a, false);
      }
    }
  }

  /** A type option sets the type, changes nothing else and answers 1;
      of several type options the last one wins. */
  lemma TypeOptionsSetType(k: ProcType, k2: ProcType, o: ProcOptions, priorityCount: int, found: bool)
    ensures OptionsAfter(SetType(k), o, priorityCount).kind == k
    ensures OptionsAfter(SetType(k), o, priorityCount).(kind := o.kind) == o
    ensures Answer(SetType(k), found) == 1
    ensures OptionsAfter(SetType(k2), OptionsAfter(SetType(k), o, priorityCount), priorityCount)
      == OptionsAfter(SetType(k2), o, priorityCount)
  {
    var r := OptionsAfter(SetType(k), o, priorityCount);
    assert r == o.(kind := k);
    assert OptionsAfter(SetType(k2), r, priorityCount) == r.(kind := k2);
  }

  /** "-d" flips debugging and, when it turns debugging on, turns logging
      on; nothing else changes. */
  lemma DebugForcesLogging(o: ProcOptions, priorityCount: int)
    ensures var r := OptionsAfter(ToggleDebug, o, priorityCount);
      && r.logDebug == !o.logDebug
      && (r.logDebug ==> r.logEnabled)
      && (!r.logDebug ==> r.logEnabled == o.logEnabled)
      && r == o.(logDebug := r.logDebug, logEnabled := r.logEnabled)
  {
  }

  /** "-q" keeps the priority in [0, priorityCount - 1], lowers it unless it
      is 0, and switches logging off when it reaches 0 without debugging. */
  lemma QuieterStaysInRange(o: ProcOptions, priorityCount: int)
    requires 0 <= o.logPriority < priorityCount
    ensures var r := OptionsAfter(Quieter, o, priorityCount);
      && 0 <= r.logPriority < priorityCount
      && r.logPriority == (if o.logPriority == 0 then 0 else o.logPriority - 1)
      && (r.logPriority == 0 && !o.logDebug ==> !r.logEnabled)
      && (r.logPriority != 0 || o.logDebug ==> r.logEnabled == o.logEnabled)
  {
  }

  /** "+q" keeps the priority in [0, priorityCount - 1], raises it unless it
      is at the top, and always switches logging on. */
  lemma LouderStaysInRange(o: ProcOptions, priorityCount: int)
    requires 0 <= o.logPriority < priorityCount
    ensures var r := OptionsAfter(Louder, o, priorityCount);
      && 0 <= r.logPriority < priorityCount
      && r.logPriority == (if o.logPriority == priorityCount - 1 then o.logPriority else o.logPriority + 1)
      && r.logEnabled
  {
  }

  predicate IsToggle(a: ProcAction) {
    a.ToggleRecurse? || a.ToggleAutoOgg? || a.ToggleInplaceOgg? || a.ToggleRevorb? || a.ToggleInplaceRevorb?
    || a.ToggleLogging? || a.ToggleColor? || a.ToggleDryRun?
  }

  /** Giving a plain toggle twice restores the options. */
  lemma ToggleTwiceRestores(a: ProcAction, o: ProcOptions, priorityCount: int)
    requires IsToggle(a)
    ensures OptionsAfter(a, OptionsAfter(a, o, priorityCount), priorityCount) == o
    ensures OptionsAfter(a, o, priorityCount) != o
  {
  }

  /** "+q" is handled but answered 0, the answer for an argument that is
      not an option, where every other option answers 1. */
  lemma LouderAnswersZero(found: bool)
    ensures Answer(Louder, found) == 0 == Answer(NotAnOption, false)
    ensures AnswerIntended(Louder, found) == 1
  {
  }

  /** With the intended answer, an argument is reported as used exactly
      when it is an option other than help, or names a file seen before. */
  lemma IntendedAnswersUse(a: ProcAction, found: bool)
    ensures AnswerIntended(a, found) == 1 <==> (a != Help && a != NotAnOption) || (a == NotAnOption && found)
    ensures a != Louder ==> AnswerIntended(a, found) == Answer(a, found)
  {
  }

  /** The table's spellings all start with '-' or '+'. */
  lemma OptionTableSigned()
    ensures forall k :: 0 <= k < |OptionTable| ==> IA.SignedLine(OptionTable[k])
  {
  }

  /** A file name that starts with neither '-' nor '+' is never taken for an
      option, so it always reaches the lookup of seen files. */
  lemma PlainArgumentIsNotAnOption(arg: string)
    requires arg != [] && arg[0] != '-' && arg[0] != '+' && arg != "too-quiet"
    ensures ActionOf(arg) == NotAnOption
  {
    OptionTableSigned();
    IA.UnsignedMissesTable(arg, OptionTable, NotAnOption);
  }

  /** A deleted input is never found again by a non-empty name. */
  lemma DeletedIsNotFound(input: ProcInput, arg: string)
    requires arg != []
    ensures Found(Some(arg), Some([Deleted(Some(input)).value])).None?
  {
  }

  // ---------------------------------------------------------------------
  // determine_type

  /** The error codes of determine_type; 0 is Typed. */
  datatype TypeResult = Typed | ErrInput | ErrRead | ErrType

  /** What opening and reading the first four bytes gave: the file could
      not be opened, or the bytes fread delivered (at most four). */
  datatype FccRead = NotOpened | ReadBytes(bytes: seq<byte>)

  const OggMagic: seq<byte> := [0x4F, 0x67, 0x67, 0x53]   // "OggS"
  const RiffMagic: seq<byte> := [0x52, 0x49, 0x46, 0x46]  // "RIFF"
  const BankMagic: seq<byte> := [0x42, 0x4B, 0x48, 0x44]  // "BKHD"

  /** The zero-initialised fourcc after a read of `bytes`. */
  function Padded(bytes: seq<byte>): (f: seq<byte>)
    requires |bytes| <= 4
    ensures |f| == 4 && f[..|bytes|] == bytes && forall i :: |bytes| <= i < 4 ==> f[i] == 0
  {
    bytes + seq(4 - |bytes|, _ => 0)
  }

  /** determine_type as written: the result code and the input's type
      afterwards (`kind` is the type before). A short read records
      TYPE_ERR_READ, but the comparisons run anyway. */
  function DetermineType(kind: ProcType, read: FccRead, extension: string): (r: (TypeResult, ProcType))
    requires read.ReadBytes? ==> |read.bytes| <= 4
    ensures r.0 == ErrInput <==> read.NotOpened?
    ensures r.0 == ErrRead ==> |read.bytes| < 4
    ensures r.0 == ErrInput || r.0 == ErrType ==> r.1 == kind
    ensures r.0 == Typed || r.0 == ErrRead ==> r.1 != Unk
  {
    match read
    case NotOpened => (ErrInput, kind)
    case ReadBytes(bytes) =>
      var err := if |bytes| != 4 then ErrRead else Typed;
      var fcc := Padded(bytes);
      if fcc == OggMagic then (err, Ogg)
      else if fcc == RiffMagic then
        if IA.FirstEqual(extension, false, ["wem"]) == 0 then (err, Wem)
        else if IA.FirstEqual(extension, false, ["wsp"]) == 0 then (err, Wsp)
        else (ErrType, kind)
      else if fcc == BankMagic then (err, Bnk)
      else (ErrType, kind)
  }

  /** A complete read classifies by the fourcc: OggS is Ogg, BKHD a bank,
      RIFF a wem or wsp by its extension (case ignored) and a type error
      otherwise; the type is unchanged whenever the result is an error. */
  lemma DetermineTypeClassifies(kind: ProcType, bytes: seq<byte>, extension: string)
    requires |bytes| == 4
    ensures var r := DetermineType(kind, ReadBytes(bytes), extension);
      && (r.0 == Typed || r.0 == ErrType)
      && (r.0 == ErrType ==> r.1 == kind)
      && (bytes == OggMagic ==> r == (Typed, Ogg))
      && (bytes == BankMagic ==> r == (Typed, Bnk))
      && (bytes == RiffMagic && IA.SameText(extension, "wem", false) ==> r == (Typed, Wem))
      && (bytes == RiffMagic && IA.SameText(extension, "wsp", false) ==> r == (Typed, Wsp))
      && (bytes == RiffMagic && !IA.SameText(extension, "wem", false) && !IA.SameText(extension, "wsp", false)
        ==> r.0 == ErrType)
      && (bytes != OggMagic && bytes != BankMagic && bytes != RiffMagic ==> r.0 == ErrType)
  {
    assert Padded(bytes) == bytes;
    assert FoldAll("wsp", true) != FoldAll("wem", true) by {
      assert FoldAll("wsp", true)[1] == 's' && FoldAll("wem", true)[1] == 'e';
    }
  }

  /** "WEM" and "wem" both make a RIFF file a wem. */
  lemma ExtensionIgnoresCase(kind: ProcType)
    ensures DetermineType(kind, ReadBytes(RiffMagic), "WEM") == (Typed, Wem)
    ensures DetermineType(kind, ReadBytes(RiffMagic), "wem") == (Typed, Wem)
  {
    assert Padded(RiffMagic) == RiffMagic;
  }

  /** A short read pads the fourcc with zero bytes, which none of the three
      magics contains, so it always ends as a type error: TYPE_ERR_READ is
      never what the caller sees. */
  lemma ShortReadIsTypeError(kind: ProcType, bytes: seq<byte>, extension: string)
    requires |bytes| < 4
    ensures DetermineType(kind, ReadBytes(bytes), extension) == (ErrType, kind)
  {
    var f := Padded(bytes);
    assert f[3] == 0;
  }

  /** determine_type with a short read reported as such. */
  function DetermineTypeIntended(kind: ProcType, read: FccRead, extension: string): (r: (TypeResult, ProcType))
    requires read.ReadBytes? ==> |read.bytes| <= 4
  {
    if read.ReadBytes? && |read.bytes| < 4 then (ErrRead, kind)
    else DetermineType(kind, read, extension)
  }

  /** The corrected version reports a short read as a read error, and
      agrees with the original on everything else. */
  lemma ShortReadReported(kind: ProcType, read: FccRead, extension: string)
    requires read.ReadBytes? ==> |read.bytes| <= 4
    ensures read.ReadBytes? && |read.bytes| < 4 ==> DetermineTypeIntended(kind, read, extension) == (ErrRead, kind)
    ensures (read.NotOpened? || |read.bytes| == 4) ==>
      DetermineTypeIntended(kind, read, extension) == DetermineType(kind, read, extension)
    ensures DetermineTypeIntended(kind, read, extension).0 == ErrRead <==> read.ReadBytes? && |read.bytes| < 4
  {
    if read.ReadBytes? && |read.bytes| == 4 {
      assert Padded(read.bytes) == read.bytes;
    }
  }
}
