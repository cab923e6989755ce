/** neinput.c: the command line of the newer front end. Arguments are
    options (which change the current input's settings or the state's),
    filter lists (after "-white" or "-black"), codebook libraries (after
    "-cbl") or inputs; a path that cannot be stat-ed clears the state and
    ends with -1. Libraries are loaded on demand, at most once. Stat-ing,
    reading and deserialising files are I/O and arrive as parameters. */
module NeInputState {
  import opened Wrappers
  import opened LibUtil
  import NF = NeFilter
  import NP = NePathModel
  import IA = InputArgs

  /** nedatatype_t. */
  datatype DataType = Auto | Ogg | Wem | Wsp | Bnk | Arc

  /** A library_index of -1 (SIZE_MAX): use the codebooks inlined in the
      file. */
  const INLINE: int := -1

  /** The contents of an nefilter_t, which a neinput_t holds by value. */
  datatype FilterValue = FilterValue(list: seq<nat>, filterType: NF.FilterType)

  const NoFilter := FilterValue([], NF.White)

  /** neinput_t. */
  datatype NeInput = NeInput(libraryIndex: int, path: NP.NePath, dataType: DataType, logPriority: int,
    logEnabled: bool, logColorEnabled: bool, logDebug: bool, addComments: bool, strippedHeaders: bool,
    dryRun: bool, autoOgg: bool, inplaceOgg: bool, inplaceRegrain: bool, filter: FilterValue)

  /** An all-zero neinput_t, as memset leaves it. */
  const ZeroInput := NeInput(0, NP.NePath(None, 0), Auto, 0, false, false, false, false, false, false, false,
    false, false, NoFilter)

  /** The settings bits of nestate_t. */
  datatype Settings = Settings(nextIsFile: bool, nextIsLibrary: bool, nextIsFilter: bool, alwaysFile: bool,
    shouldReset: bool, logStyleEnabled: bool, reportCard: bool, fullReport: bool)

  const NoSettings := Settings(false, false, false, false, false, false, false, false)

  /** The status bits of neinput_library_t: `loadError` is a 14-bit
      field. */
  datatype Status = Status(loaded: bool, alternate: bool, loadError: nat)

  /** neinput_library_t without its codebooks. */
  datatype Library = Library(status: Status, path: NP.NePath)

  /** A command-line argument and what stat-ing it would find. */
  datatype Argument = Argument(text: string, stat: NP.Stat)

  // ---------------------------------------------------------------------
  // i_parse_argument

  /** _mod_priority: a negative delta lowers the priority unless it is 0, a
      positive one raises it unless it is at the top; afterwards logging
      is on exactly when debugging or the priority is not 0. */
  function ModPriority(cur: NeInput, delta: int, priorityCount: int): (r: NeInput)
    ensures r == cur.(logPriority := r.logPriority, logEnabled := r.logEnabled)
  {
    var p :=
      if delta < 0 && cur.logPriority > 0 then cur.logPriority - 1
      else if delta > 0 && cur.logPriority < priorityCount - 1 then cur.logPriority + 1
      else cur.logPriority;
    cur.(logPriority := p, logEnabled := cur.logDebug || p != 0)
  }

  /** "-q" keeps the priority in [0, priorityCount - 1], lowers it by one
      unless it is 0, and leaves logging on exactly when debugging or the
      priority is still above 0, whatever "-Q" had set. */
  lemma QuieterStaysInRange(cur: NeInput, priorityCount: int)
    requires 0 <= cur.logPriority < priorityCount
    ensures var r := ModPriority(cur, -1, priorityCount);
      && 0 <= r.logPriority < priorityCount
      && r.logPriority == (if cur.logPriority == 0 then 0 else cur.logPriority - 1)
      && (r.logEnabled <==> cur.logDebug || r.logPriority != 0)
  {
  }

  /** "+q" keeps the priority in [0, priorityCount - 1], raises it by one
      unless it is at the top, and logging is on unless the priority is 0
      (only possible with a single priority) and debugging is off. */
  lemma LouderStaysInRange(cur: NeInput, priorityCount: int)
    requires 0 <= cur.logPriority < priorityCount
    ensures var r := ModPriority(cur, 1, priorityCount);
      && 0 <= r.logPriority < priorityCount
      && r.logPriority == (if cur.logPriority == priorityCount - 1 then cur.logPriority else cur.logPriority + 1)
      && (r.logEnabled <==> cur.logDebug || r.logPriority != 0)
      && (priorityCount > 1 ==> r.logEnabled)
  {
  }

  /** What an option argument does. */
  datatype Action = Help | SetType(kind: DataType) | ToggleInplaceRegrain | ToggleInplaceOgg
    | LibraryNext | InlineCodebooks | ToggleStripped | ToggleAutoOgg | FilterNext(filterType: NF.FilterType)
    | ToggleFilterType | ToggleNextIsFile | ToggleAlwaysFile | ToggleComments | ToggleDebug | ToggleColor
    | ToggleLogStyle | ToggleReportCard | ToggleFullReport | Quieter | Louder | ToggleLogging | ToggleDryRun
    | ToggleReset | NotAnOption

  /** The option table of i_parse_argument; only the help spellings ignore
      case. */
  const OptionTable: seq<IA.OptionLine<Action>> := [
    IA.OptionLine(false, ["-h", "-help", "--help", "-v", "-version", "--version"], Help),
    IA.OptionLine(true, ["-a", "-auto", "-detect"], SetType(Auto)),
    IA.OptionLine(true, ["-w", "-wem", "-weem"], SetType(Wem)),
    IA.OptionLine(true, ["-W", "-wsp", "-wisp"], SetType(Wsp)),
    IA.OptionLine(true, ["-b", "-bnk", "-bank"], SetType(Bnk)),
    IA.OptionLine(true, ["-o", "-ogg"], SetType(Ogg)),
    IA.OptionLine(true, ["-ri", "-rgrn-inplace", "-rvb-inplace"], ToggleInplaceRegrain),
    IA.OptionLine(true, ["-oi", "-ogg-inplace"], ToggleInplaceOgg),
    IA.OptionLine(true, ["-cbl", "-codebook-library"], LibraryNext),
    IA.OptionLine(true, ["-inline"], InlineCodebooks),
    IA.OptionLine(true, ["-stripped"], ToggleStripped),
    IA.OptionLine(true, ["-w2o", "-wem2ogg"], ToggleAutoOgg),
    IA.OptionLine(true, ["-white", "-weiss"], FilterNext(NF.White)),
    IA.OptionLine(true, ["-black", "-noir"], FilterNext(NF.Black)),
    IA.OptionLine(true, ["-rubrum"], ToggleFilterType),
    IA.OptionLine(true, ["-!"], ToggleNextIsFile),
    IA.OptionLine(true, ["--"], ToggleAlwaysFile),
    IA.OptionLine(true, ["-co", "-comments"], ToggleComments),
    IA.OptionLine(true, ["-d", "-debug"], ToggleDebug),
    IA.OptionLine(true, ["-c", "-color"], ToggleColor),
    IA.OptionLine(true, ["-C", "-state-color"], ToggleLogStyle),
    IA.OptionLine(true, ["-r", "-report-card"], ToggleReportCard),
    IA.OptionLine(true, ["+r", "-full-report"], ToggleFullReport),
    IA.OptionLine(true, ["-q", "-quiet"], Quieter),
    IA.OptionLine(true, ["+q", "+quiet"], Louder),
    IA.OptionLine(true, ["-Q", "-qq", "too-quiet"], ToggleLogging),
    IA.OptionLine(true, ["-n", "-dry", "-dry-run"], ToggleDryRun),
    IA.OptionLine(true, ["-reset"], ToggleReset)
  ]

  function ActionOf(arg: string): Action {
    IA.Lookup(arg, OptionTable, NotAnOption)
  }

  /** What i_parse_argument answers for an option. */
  function VerdictOf(a: Action): IA.Verdict {
    match a
    case Help => IA.HelpExit
    case NotAnOption => IA.Unconsumed
    case _ => IA.Consumed
  }

  /** The effect of an option on the state's settings. */
  function SettingsAfter(a: Action, s: Settings): Settings {
    match a
    case LibraryNext => s.(nextIsLibrary := true)
    case FilterNext(_) => s.(nextIsFilter := true)
    case ToggleNextIsFile => s.(nextIsFile := !s.nextIsFile)
    case ToggleAlwaysFile => s.(alwaysFile := !s.alwaysFile)
    case ToggleLogStyle => s.(logStyleEnabled := !s.logStyleEnabled)
    case ToggleReportCard => s.(reportCard := !s.reportCard)
    case ToggleFullReport => s.(fullReport := !s.fullReport)
    case ToggleReset => s.(shouldReset := !s.shouldReset)
    case _ => s
  }

  /** The other filter type ("-rubrum" negates the enum). */
  function Flipped(t: NF.FilterType): NF.FilterType {
    if t == NF.White then NF.Black else NF.White
  }

  /** The effect of an option on the current input. */
  function InputAfter(a: Action, cur: NeInput, priorityCount: int): NeInput {
    match a
    case SetType(k) => cur.(dataType := k)
    case ToggleInplaceRegrain => cur.(inplaceRegrain := !cur.inplaceRegrain)
    case ToggleInplaceOgg => cur.(inplaceOgg := !cur.inplaceOgg)
    case InlineCodebooks => cur.(libraryIndex := INLINE)
    case ToggleStripped => cur.(strippedHeaders := !cur.strippedHeaders)
    case ToggleAutoOgg => cur.(autoOgg := !cur.autoOgg)
    case FilterNext(t) => cur.(filter := cur.filter.(filterType := t))
    case ToggleFilterType => cur.(filter := cur.filter.(filterType := Flipped(cur.filter.filterType)))
    case ToggleComments => cur.(addComments := !cur.addComments)
    case ToggleDebug => cur.(logDebug := !cur.logDebug)
    case ToggleColor => cur.(logColorEnabled := !cur.logColorEnabled)
    case Quieter => ModPriority(cur, -1, priorityCount)
    case Louder => ModPriority(cur, 1, priorityCount)
    case ToggleLogging => cur.(logEnabled := !cur.logEnabled)
    case ToggleDryRun => cur.(dryRun := !cur.dryRun)
    case _ => cur
  }

  /** The effect of one option. */
  function Apply(a: Action, s: Settings, cur: NeInput, priorityCount: int): (IA.Verdict, Settings, NeInput) {
    (VerdictOf(a), SettingsAfter(a, s), InputAfter(a, cur, priorityCount))
  }

  /** Something other than an option is expected next. */
  predicate Pending(s: Settings) {
    s.nextIsFilter || s.nextIsLibrary || s.nextIsFile || s.alwaysFile
  }

  /** i_parse_argument: an empty argument is consumed; while a filter, a
      library or a file is pending, or every argument is a file, nothing
      is an option (and nothing pending is used up); otherwise the option
      table decides. */
  function Parse(arg: string, s: Settings, cur: NeInput, priorityCount: int): (IA.Verdict, Settings, NeInput) {
    if arg == [] then (IA.Consumed, s, cur)
    else if Pending(s) then (IA.Unconsumed, s, cur)
    else Apply(ActionOf(arg), s, cur, priorityCount)
  }

  /** The options that toggle one of the state's settings. */
  predicate IsSettingToggle(a: Action) {
    match a
    case ToggleNextIsFile | ToggleAlwaysFile | ToggleLogStyle | ToggleReportCard | ToggleFullReport | ToggleReset => true
    case _ => false
  }

  /** The options that toggle one bit of the current input. */
  predicate IsInputToggle(a: Action) {
    match a
    case ToggleInplaceRegrain | ToggleInplaceOgg | ToggleStripped | ToggleAutoOgg | ToggleFilterType
      | ToggleComments | ToggleDebug | ToggleColor | ToggleLogging | ToggleDryRun => true
    case _ => false
  }

  /** A settings toggle flips one setting and leaves the input alone: it
      changes the settings, and giving it twice restores them. */
  lemma SettingToggleTwiceRestores(a: Action, s: Settings, cur: NeInput, priorityCount: int)
    requires IsSettingToggle(a)
    ensures VerdictOf(a) == IA.Consumed && InputAfter(a, cur, priorityCount) == cur
    ensures SettingsAfter(a, s) != s && SettingsAfter(a, SettingsAfter(a, s)) == s
  {
  }

  /** An input toggle flips one bit of the current input (the filter type
      for "-rubrum") and leaves the settings alone: it changes the input,
      and giving it twice restores it. */
  lemma InputToggleTwiceRestores(a: Action, s: Settings, cur: NeInput, priorityCount: int)
    requires IsInputToggle(a)
    ensures VerdictOf(a) == IA.Consumed && SettingsAfter(a, s) == s
    ensures InputAfter(a, cur, priorityCount) != cur
    ensures InputAfter(a, InputAfter(a, cur, priorityCount), priorityCount) == cur
  {
  }

  /** "-white" and "-black" set the current filter's type and announce a
      filter list; its entries are kept until the list arrives. */
  lemma FilterOptionAnnouncesList(t: NF.FilterType, s: Settings, cur: NeInput, priorityCount: int)
    ensures Apply(FilterNext(t), s, cur, priorityCount)
      == (IA.Consumed, s.(nextIsFilter := true), cur.(filter := FilterValue(cur.filter.list, t)))
  {
  }

  /** While something is pending, every non-empty argument is left for the
      loop and nothing changes, a pending "-!" included. */
  lemma PendingConsumesNothing(arg: string, s: Settings, cur: NeInput, priorityCount: int)
    requires arg != [] && Pending(s)
    ensures Parse(arg, s, cur, priorityCount) == (IA.Unconsumed, s, cur)
  {
  }

  /** Every line of the option table is signed. */
  lemma OptionTableSigned()
    ensures forall k :: 0 <= k < |OptionTable| ==> IA.SignedLine(OptionTable[k])
  {
  }

  /** An argument that starts with neither '-' nor '+' (other than the
      dash-less spelling "too-quiet") is not an option. */
  lemma PlainArgumentIsNotAnOption(arg: string)
    requires arg != [] && arg[0] != '-' && arg[0] != '+' && arg != "too-quiet"
    ensures ActionOf(arg) == NotAnOption
  {
    OptionTableSigned();
    IA.UnsignedMissesTable(arg, OptionTable, NotAnOption);
  }

  // ---------------------------------------------------------------------
  // neinput_library_load and neinput_load_codebooks

  /** The 14 bits of `v` a `load_error` field keeps: -1 becomes 16383. */
  function Bits14(v: int): (b: nat)
    ensures b < 0x4000
    ensures 0 <= v < 0x4000 ==> b == v
    ensures (b == 0) <==> (v % 0x4000 == 0)
  {
    v % 0x4000
  }

  /** What reading and deserialising a library's file gives: nepath_read
      failed; codebook_library_check_type did not recognise the data; or
      the data was deserialised in the layout check_type named,
      successfully or not. */
  datatype LibraryData = Unreadable | NotALibrary | Deserialized(alternate: bool, ok: bool)

  /** What nepath_read and then i_parse_library_data answer (0 or -1),
      and the `alternate` bit check_type leaves. */
  function ReadAndParse(status: Status, data: LibraryData): (r: (bool, int))
    ensures r.1 in {0, -1}
    ensures r.1 == 0 <==> data.Deserialized? && data.ok
  {
    match data
    case Unreadable => (status.alternate, -1)
    case NotALibrary => (status.alternate, -1)
    case Deserialized(alternate, ok) => (alternate, if ok then 0 else -1)
  }

  /** neinput_library_load: a null library answers -1; an error already
      recorded is answered again, and a loaded library answers 0, both
      without reading; otherwise the file is read and parsed, the error
      kept in its 14 bits, and `loaded` says whether they are 0. */
  function LibraryLoad(lib: Option<Library>, data: LibraryData): (r: (Option<Library>, int))
    ensures lib.None? ==> r == (None, -1)
    ensures lib.Some? ==> r.0.Some? && r.0.value.path == lib.value.path
    ensures lib.Some? && lib.value.status.loadError != 0 ==> r == (lib, lib.value.status.loadError)
    ensures lib.Some? && lib.value.status.loadError == 0 && lib.value.status.loaded ==> r == (lib, 0)
  {
    match lib
    case None => (None, -1)
    case Some(l) =>
      if l.status.loadError != 0 then (lib, l.status.loadError)
      else if l.status.loaded then (lib, 0)
      else
        var (alternate, err) := ReadAndParse(l.status, data);
        var e := Bits14(err);
        (Some(l.(status := Status(e == 0, alternate, e))), e as int)
  }

  /** The loader's invariant: the error fits its field, and a loaded
      library has none. */
  predicate StatusOk(s: Status) {
    s.loadError < 0x4000 && (s.loaded ==> s.loadError == 0)
  }

  /** A first load answers 0 exactly when it leaves the library loaded,
      and a failure is answered as 16383, the 14 bits of -1. */
  lemma FirstLoadAnswers(lib: Library, data: LibraryData)
    requires StatusOk(lib.status) && !lib.status.loaded && lib.status.loadError == 0
    ensures var (l, r) := LibraryLoad(Some(lib), data);
      && StatusOk(l.value.status)
      && (r == 0 <==> l.value.status.loaded)
      && (r == 0 || r == 0x3FFF)
      && (r == 0 <==> data.Deserialized? && data.ok)
  {
  }

  /** A second load answers what the first answered and changes nothing,
      whatever the file would now give. */
  lemma LoadIsRemembered(lib: Library, first: LibraryData, second: LibraryData)
    requires StatusOk(lib.status)
    ensures StatusOk(LibraryLoad(Some(lib), first).0.value.status)
    ensures LibraryLoad(LibraryLoad(Some(lib), first).0, second) == LibraryLoad(Some(lib), first)
  {
  }

  /** Where neinput_load_codebooks leaves its out-parameter: the codebooks
      of library `index`, or NULL (None). */
  class CodebooksOut {
    var library: Option<nat>

    constructor ()
      ensures library == None
    {
      library := None;
    }
  }

  // ---------------------------------------------------------------------
  // i_add_library and i_add_input

  /** The first library whose path is `arg`. */
  function FindLibrary(libraries: seq<Library>, arg: string): (r: Option<nat>)
    ensures r.Some? ==> (r.value < |libraries| && libraries[r.value].path.cstr == Some(arg)
      && forall j :: 0 <= j < r.value ==> libraries[j].path.cstr != Some(arg))
    ensures r.None? ==> forall j :: 0 <= j < |libraries| ==> libraries[j].path.cstr != Some(arg)
  {
    if libraries == [] then None
    else if libraries[0].path.cstr == Some(arg) then Some(0)
    else match FindLibrary(libraries[1..], arg)
      case None => None
      case Some(k) => Some(k + 1)
  }

  /** The first input whose path is `arg`. */
  function FindInput(inputs: seq<NeInput>, arg: string): (r: Option<nat>)
    ensures r.Some? ==> (r.value < |inputs| && inputs[r.value].path.cstr == Some(arg)
      && forall j :: 0 <= j < r.value ==> inputs[j].path.cstr != Some(arg))
    ensures r.None? ==> forall j :: 0 <= j < |inputs| ==> inputs[j].path.cstr != Some(arg)
  {
    if inputs == [] then None
    else if inputs[0].path.cstr == Some(arg) then Some(0)
    else match FindInput(inputs[1..], arg)
      case None => None
      case Some(k) => Some(k + 1)
  }

  /** A new library entry: `alternate` when its extension compares equal
      to "ocbl". */
  function NewLibrary(path: NP.NePath): Library
    requires NP.PathValid(path)
  {
    Library(Status(false, NP.ExtensionCmpResult(path, ["ocbl"]) != -1, 0), path)
  }

  /** The extension compared always starts with its dot, so a new library
      is never marked alternate; its layout is decided by
      codebook_library_check_type when it is loaded. */
  lemma NewLibraryNeverAlternate(path: NP.NePath)
    requires NP.PathValid(path)
    ensures !NewLibrary(path).status.alternate && StatusOk(NewLibrary(path).status)
  {
    NP.UndottedNeverMatches(path, ["ocbl"]);
  }

  // ---------------------------------------------------------------------
  // nestate_init

  /** What one pass of the loop leaves: go on, help ended the process, or
      a path could not be stat-ed (the state is cleared and -1 returned). */
  datatype Outcome = Continue | Exit | Failed

  /** Everything the argument loop changes: the state's settings, lists,
      widest input path and default input, and the local `current`. */
  datatype Parsing = Parsing(settings: Settings, inputs: seq<NeInput>, libraries: seq<Library>,
    inputPathMax: nat, defaultInput: NeInput, current: NeInput)

  /** nestate_clear: the lists and every field but the statistics are
      zeroed. */
  function Cleared(p: Parsing): Parsing {
    p.(settings := NoSettings, inputs := [], libraries := [], defaultInput := ZeroInput)
  }

  /** The filter the loop installs for a filter list as written: the
      working filter is given the current type, but nefilter_init replaces
      the whole filter with a fresh white list. */
  function FilterAfter(cur: NeInput, arg: string): (f: FilterValue)
    ensures f.list == NF.Indices(arg)
  {
    FilterValue(NF.Indices(arg), NF.White)
  }

  /** The filter evidently meant: the list parsed from `arg`, keeping the
      type "-white", "-black" or "-rubrum" chose. */
  function FilterIntended(cur: NeInput, arg: string): (f: FilterValue)
    ensures f.list == NF.Indices(arg) && f.filterType == cur.filter.filterType
  {
    FilterValue(NF.Indices(arg), cur.filter.filterType)
  }

  /** "-black 1": the as-written loop hands the input a white list of
      stream 1, so that only stream 1 is processed; the intended filter
      excludes it. */
  lemma BlackListBecomesWhite(cur: NeInput)
    requires cur.filter.filterType == NF.Black
    ensures FilterAfter(cur, "1").filterType == NF.White && FilterAfter(cur, "1").list == [1]
    ensures FilterIntended(cur, "1").filterType == NF.Black && FilterIntended(cur, "1").list == [1]
  {
    NF.SingleIndex(1);
    assert NF.Decimal(1) == "1";
  }

  /** The list a filter argument becomes does not depend on the type, in
      either version. */
  lemma FilterVersionsDifferOnlyInType(cur: NeInput, arg: string)
    ensures FilterAfter(cur, arg) == FilterIntended(cur, arg).(filterType := NF.White)
    ensures cur.filter.filterType == NF.White ==> FilterAfter(cur, arg) == FilterIntended(cur, arg)
  {
  }

  /** i_add_library: the library already listed under `arg`, or a new
      entry appended; the index is where library_index is left. A new
      path that cannot be stat-ed gives no list (the error -1). */
  function AddedLibrary(libraries: seq<Library>, arg: Argument, maxPath: nat): (r: (Option<seq<Library>>, nat))
    requires CText(arg.text)
    ensures r.0.None? <==> FindLibrary(libraries, arg.text).None? && arg.stat.StatFailed?
    ensures r.0.Some? ==> (libraries <= r.0.value && |r.0.value| <= |libraries| + 1
      && r.1 < |r.0.value| && r.0.value[r.1].path.cstr == Some(arg.text))
  {
    match FindLibrary(libraries, arg.text)
    case Some(i) => (Some(libraries), i)
    case None =>
      match NP.Init(arg.text, arg.stat, maxPath)
      case None => (None, |libraries|)
      case Some(path) =>
        NP.InitValid(arg.text, arg.stat, maxPath);
        (Some(libraries + [NewLibrary(path)]), |libraries|)
  }

  /** i_add_library, then the loop clears next_is_library; a failure
      clears the state. */
  function LibraryStep(p: Parsing, arg: Argument, maxPath: nat): (r: (Parsing, Outcome))
    requires CText(arg.text)
    ensures r.1 != Exit
    ensures r.1 == Failed <==> FindLibrary(p.libraries, arg.text).None? && arg.stat.StatFailed?
    ensures r.1 == Failed ==> r.0.inputs == [] && r.0.libraries == []
    ensures r.1 == Continue ==> !r.0.settings.nextIsLibrary && r.0.inputs == p.inputs && p.libraries <= r.0.libraries
    ensures r.1 == Continue ==> (0 <= r.0.current.libraryIndex < |r.0.libraries|
      && r.0.libraries[r.0.current.libraryIndex].path.cstr == Some(arg.text))
  {
    var (libraries, index) := AddedLibrary(p.libraries, arg, maxPath);
    var q := p.(current := p.current.(libraryIndex := index));
    if libraries.None? then (Cleared(q), Failed)
    else (q.(settings := q.settings.(nextIsLibrary := false), libraries := libraries.value), Continue)
  }

  /** i_add_input, then the loop's bookkeeping: a path that cannot be
      stat-ed fails; one that is not a regular file is skipped; a path
      already listed has its entry replaced by the current options, and a
      new one is appended and widens input_path_max. Then the pending "-!"
      is used up and, with "-reset", the options go back to the
      defaults. */
  function InputStep(p: Parsing, arg: Argument, maxPath: nat): (r: (Parsing, Outcome))
    ensures r.1 != Exit
    ensures r.1 == Failed <==> NP.Init(arg.text, arg.stat, maxPath).None?
    ensures r.1 == Failed ==> r.0.inputs == [] && r.0.libraries == []
    ensures r.1 == Continue ==>
      && !r.0.settings.nextIsFile && r.0.libraries == p.libraries
      && |p.inputs| <= |r.0.inputs| <= |p.inputs| + 1 && r.0.inputPathMax >= p.inputPathMax
  {
    match NP.Init(arg.text, arg.stat, maxPath)
    case None => (Cleared(p), Failed)
    case Some(path) =>
      var q :=
        if !arg.stat.isFile then p
        else
          var (inputs, pathMax) := AddedInput(p.inputs, p.inputPathMax, p.current.(path := path), arg.text);
          p.(inputs := inputs, inputPathMax := pathMax);
      var r := q.(settings := q.settings.(nextIsFile := false));
      (if r.settings.shouldReset then r.(current := r.defaultInput) else r, Continue)
  }

  /** One pass of the loop of nestate_init. */
  function Step(p: Parsing, arg: Argument, priorityCount: int, maxPath: nat): (r: (Parsing, Outcome))
    requires CText(arg.text)
    ensures r.1 == Exit <==> Parse(arg.text, p.settings, p.current, priorityCount).0 == IA.HelpExit
    ensures r.1 == Failed ==> r.0.inputs == [] && r.0.libraries == []
    ensures r.1 == Continue ==> p.libraries <= r.0.libraries && |p.inputs| <= |r.0.inputs| <= |p.inputs| + 1
  {
    Continued(p, arg, Parse(arg.text, p.settings, p.current, priorityCount), maxPath)
  }

  /** The pass once i_parse_argument has answered `parsed`: help ends the
      process, a consumed option is done; otherwise a pending filter list,
      library or input takes the argument, in that order. */
  function Continued(p: Parsing, arg: Argument, parsed: (IA.Verdict, Settings, NeInput), maxPath: nat): (r: (Parsing, Outcome))
    requires CText(arg.text)
    ensures r.1 == Exit <==> parsed.0 == IA.HelpExit
    ensures parsed.0 == IA.Consumed ==> r == (p.(settings := parsed.1, current := parsed.2), Continue)
    ensures r.1 == Failed ==> r.0.inputs == [] && r.0.libraries == []
    ensures r.1 == Continue ==> p.libraries <= r.0.libraries && |p.inputs| <= |r.0.inputs| <= |p.inputs| + 1
  {
    var (v, s, cur) := parsed;
    var q := p.(settings := s, current := cur);
    if v == IA.HelpExit then (q, Exit)
    else if v == IA.Consumed then (q, Continue)
    else if s.nextIsFilter then
      (q.(settings := s.(nextIsFilter := false), current := cur.(filter := FilterAfter(cur, arg.text))), Continue)
    else if s.nextIsLibrary then LibraryStep(q, arg, maxPath)
    else InputStep(q, arg, maxPath)
  }

  predicate AllText(args: seq<Argument>) {
    forall i :: 0 <= i < |args| ==> CText(args[i].text)
  }

  /** The loop over the arguments, stopping when help ends the process or
      a path fails. */
  function Taken(p: Parsing, args: seq<Argument>, priorityCount: int, maxPath: nat): (r: (Parsing, Outcome))
    requires AllText(args)
    ensures r.1 == Failed ==> r.0.inputs == [] && r.0.libraries == []
    ensures r.1 == Continue ==> p.libraries <= r.0.libraries && |p.inputs| <= |r.0.inputs| <= |p.inputs| + |args|
    decreases |args|
  {
    if args == [] then (p, Continue)
    else
      var (q, o) := Taken(p, args[..|args| - 1], priorityCount, maxPath);
      if o != Continue then (q, o) else Step(q, args[|args| - 1], priorityCount, maxPath)
  }

  /** The loop one argument further. */
  lemma TakenOneMore(p: Parsing, args: seq<Argument>, i: nat, priorityCount: int, maxPath: nat)
    requires AllText(args) && i < |args|
    requires Taken(p, args[..i], priorityCount, maxPath).1 == Continue
    ensures Taken(p, args[..i + 1], priorityCount, maxPath)
      == Step(Taken(p, args[..i], priorityCount, maxPath).0, args[i], priorityCount, maxPath)
  {
    assert args[..i + 1][..i] == args[..i];
  }

  /** Once the loop has stopped, later arguments change nothing. */
  lemma {:induction false} TakenStops(p: Parsing, args: seq<Argument>, k: nat, priorityCount: int, maxPath: nat)
    requires AllText(args) && k <= |args| && Taken(p, args[..k], priorityCount, maxPath).1 != Continue
    ensures Taken(p, args, priorityCount, maxPath) == Taken(p, args[..k], priorityCount, maxPath)
    decreases |args| - k
  {
    if k == |args| {
      assert args[..k] == args;
    } else {
      var prefix := args[..|args| - 1];
      assert prefix[..k] == args[..k];
      TakenStops(p, prefix, k, priorityCount, maxPath);
      StoppedStays(p, args, priorityCount, maxPath);
    }
  }

  /** One step of Taken after the loop has stopped. */
  lemma StoppedStays(p: Parsing, args: seq<Argument>, priorityCount: int, maxPath: nat)
    requires AllText(args) && args != [] && Taken(p, args[..|args| - 1], priorityCount, maxPath).1 != Continue
    ensures Taken(p, args, priorityCount, maxPath) == Taken(p, args[..|args| - 1], priorityCount, maxPath)
  {
  }

  /** A path as nepath_init leaves it for an argument. */
  predicate PathOf(path: NP.NePath, maxPath: nat) {
    path.cstr.Some? && path.length == NP.Measured(path.cstr.value, maxPath)
  }

  /** No input path twice, each measured as nepath_init measures it, and
      the widest path covers every input. */
  predicate InputsOk(inputs: seq<NeInput>, pathMax: nat, maxPath: nat) {
    && (forall i, j :: 0 <= i < j < |inputs| ==> inputs[i].path.cstr != inputs[j].path.cstr)
    && (forall i :: 0 <= i < |inputs| ==> PathOf(inputs[i].path, maxPath))
    && (forall i :: 0 <= i < |inputs| ==> inputs[i].path.length <= pathMax)
  }

  /** No library path twice, and every library's status consistent. */
  predicate LibrariesOk(libraries: seq<Library>) {
    && (forall i, j :: 0 <= i < j < |libraries| ==> libraries[i].path.cstr != libraries[j].path.cstr)
    && (forall i :: 0 <= i < |libraries| ==> StatusOk(libraries[i].status))
  }

  predicate Wf(p: Parsing, maxPath: nat) {
    InputsOk(p.inputs, p.inputPathMax, maxPath) && LibrariesOk(p.libraries)
  }

  /** Every pass keeps the lists free of repeats, the widest path covering
      the inputs, and the libraries' status consistent. */
  lemma {:induction false} TakenKeepsWf(p: Parsing, args: seq<Argument>, priorityCount: int, maxPath: nat)
    requires Wf(p, maxPath) && AllText(args)
    ensures Wf(Taken(p, args, priorityCount, maxPath).0, maxPath)
    decreases |args|
  {
    if args != [] {
      TakenKeepsWf(p, args[..|args| - 1], priorityCount, maxPath);
      var (q, o) := Taken(p, args[..|args| - 1], priorityCount, maxPath);
      if o == Continue {
        var arg := args[|args| - 1];
        ContinuedKeepsWf(q, arg, Parse(arg.text, q.settings, q.current, priorityCount), maxPath);
      }
    }
  }

  lemma ContinuedKeepsWf(p: Parsing, arg: Argument, parsed: (IA.Verdict, Settings, NeInput), maxPath: nat)
    requires Wf(p, maxPath) && CText(arg.text)
    ensures Wf(Continued(p, arg, parsed, maxPath).0, maxPath)
  {
    var (v, s, cur) := parsed;
    var q := p.(settings := s, current := cur);
    if v == IA.Unconsumed && !s.nextIsFilter {
      if s.nextIsLibrary {
        LibraryStepKeepsWf(q, arg, maxPath);
      } else {
        InputStepKeepsWf(q, arg, maxPath);
      }
    }
  }

  lemma LibraryStepKeepsWf(p: Parsing, arg: Argument, maxPath: nat)
    requires Wf(p, maxPath) && CText(arg.text)
    ensures Wf(LibraryStep(p, arg, maxPath).0, maxPath)
  {
    if FindLibrary(p.libraries, arg.text).None? && arg.stat.Statted? {
      var path := NP.Init(arg.text, arg.stat, maxPath).value;
      assert AddedLibrary(p.libraries, arg, maxPath).0.value == p.libraries + [NewLibrary(path)];
      NP.InitValid(arg.text, arg.stat, maxPath);
      NewLibraryNeverAlternate(path);
      LibraryAppendedOk(p.libraries, NewLibrary(path));
    }
  }

  lemma LibraryAppendedOk(libraries: seq<Library>, l: Library)
    requires LibrariesOk(libraries) && StatusOk(l.status)
    requires forall j :: 0 <= j < |libraries| ==> libraries[j].path.cstr != l.path.cstr
    ensures LibrariesOk(libraries + [l])
  {
  }

  lemma InputStepKeepsWf(p: Parsing, arg: Argument, maxPath: nat)
    requires Wf(p, maxPath)
    ensures Wf(InputStep(p, arg, maxPath).0, maxPath)
  {
    if arg.stat.Statted? && arg.stat.isFile {
      var path := NP.Init(arg.text, arg.stat, maxPath).value;
      InputAddedOk(p.inputs, p.current.(path := path), p.inputPathMax, arg.text, maxPath);
    }
  }

  /** The list of i_add_input after a regular file: its entry replaced, or
      appended with input_path_max widened. */
  function AddedInput(inputs: seq<NeInput>, pathMax: nat, next: NeInput, arg: string): (r: (seq<NeInput>, nat))
    ensures |inputs| <= |r.0| <= |inputs| + 1 && r.1 >= pathMax
  {
    match FindInput(inputs, arg)
    case Some(i) => (inputs[i := next], pathMax)
    case None => (inputs + [next], if next.path.length > pathMax then next.path.length else pathMax)
  }

  /** Adding an input keeps the list free of repeats and the widest path
      covering it, and the entry is in the list afterwards. */
  lemma InputAddedOk(inputs: seq<NeInput>, next: NeInput, pathMax: nat, arg: string, maxPath: nat)
    requires InputsOk(inputs, pathMax, maxPath) && next.path.cstr == Some(arg) && PathOf(next.path, maxPath)
    ensures var (r, m) := AddedInput(inputs, pathMax, next, arg);
      InputsOk(r, m, maxPath) && next in r && m >= next.path.length
  {
    match FindInput(inputs, arg)
    case Some(i) =>
      var r := inputs[i := next];
      assert r[i] == next;
      assert forall j :: 0 <= j < |r| && j != i ==> r[j] == inputs[j];
    case None =>
      var r := inputs + [next];
      assert r[|inputs|] == next;
  }

  /** A plain file name, with nothing pending, that names a regular file
      becomes an input carrying the current options under its path, and
      the widest path accounts for it. */
  lemma PlainFileBecomesInput(p: Parsing, arg: Argument, priorityCount: int, maxPath: nat)
    requires Wf(p, maxPath) && CText(arg.text)
    requires arg.text != [] && arg.text[0] != '-' && arg.text[0] != '+' && arg.text != "too-quiet"
    requires !Pending(p.settings) && arg.stat == NP.Statted(true)
    ensures var (q, o) := Step(p, arg, priorityCount, maxPath);
      && o == Continue && q.libraries == p.libraries
      && p.current.(path := NP.Init(arg.text, arg.stat, maxPath).value) in q.inputs
      && q.inputPathMax >= NP.Init(arg.text, arg.stat, maxPath).value.length
  {
    PlainArgumentIsNotAnOption(arg.text);
    assert Parse(arg.text, p.settings, p.current, priorityCount) == (IA.Unconsumed, p.settings, p.current);
    var path := NP.Init(arg.text, arg.stat, maxPath).value;
    InputAddedOk(p.inputs, p.current.(path := path), p.inputPathMax, arg.text, maxPath);
  }

  /** After "-cbl", the next argument names a library, the current input
      uses it unless "-reset" is in force, and the inputs are untouched;
      a library path that cannot be stat-ed clears the state. */
  lemma LibraryArgumentIsSelected(p: Parsing, arg: Argument, priorityCount: int, maxPath: nat)
    requires CText(arg.text) && arg.text != []
    requires p.settings.nextIsLibrary && !p.settings.nextIsFilter
    ensures var (q, o) := Step(p, arg, priorityCount, maxPath);
      o != Exit
      && (o == Continue ==> (!q.settings.nextIsLibrary && q.inputs == p.inputs
        && 0 <= q.current.libraryIndex < |q.libraries| && q.libraries[q.current.libraryIndex].path.cstr == Some(arg.text)))
      && (o == Failed ==> q.inputs == [] && q.libraries == [] && q.settings == NoSettings)
  {
    assert Parse(arg.text, p.settings, p.current, priorityCount) == (IA.Unconsumed, p.settings, p.current);
  }

  /** After "-white" or "-black", the next argument becomes the current
      input's filter list, and (as written) a white one. */
  lemma FilterArgumentInstalled(p: Parsing, arg: Argument, priorityCount: int, maxPath: nat)
    requires CText(arg.text) && arg.text != [] && p.settings.nextIsFilter
    ensures var (q, o) := Step(p, arg, priorityCount, maxPath);
      && o == Continue && !q.settings.nextIsFilter
      && q.current.filter == FilterValue(NF.Indices(arg.text), NF.White)
      && q.inputs == p.inputs && q.libraries == p.libraries
  {
    assert Parse(arg.text, p.settings, p.current, priorityCount) == (IA.Unconsumed, p.settings, p.current);
  }

  /** A path that cannot be stat-ed ends the loop with the state
      cleared. */
  lemma {:induction false} FailureClears(p: Parsing, args: seq<Argument>, priorityCount: int, maxPath: nat)
    requires AllText(args) && Taken(p, args, priorityCount, maxPath).1 == Failed
    ensures var q := Taken(p, args, priorityCount, maxPath).0;
      q.inputs == [] && q.libraries == [] && q.settings == NoSettings && q.defaultInput == ZeroInput
    decreases |args|
  {
    var (q, o) := Taken(p, args[..|args| - 1], priorityCount, maxPath);
    if o == Failed {
      FailureClears(p, args[..|args| - 1], priorityCount, maxPath);
    } else {
      var arg := args[|args| - 1];
      ContinuedFailureClears(q, arg, Parse(arg.text, q.settings, q.current, priorityCount), maxPath);
    }
  }

  lemma ContinuedFailureClears(p: Parsing, arg: Argument, parsed: (IA.Verdict, Settings, NeInput), maxPath: nat)
    requires CText(arg.text) && Continued(p, arg, parsed, maxPath).1 == Failed
    ensures var q := Continued(p, arg, parsed, maxPath).0;
      q.inputs == [] && q.libraries == [] && q.settings == NoSettings && q.defaultInput == ZeroInput
  {
  }

  // ---------------------------------------------------------------------
  // The state

  /** nestate_t (of its statistics only input_path_max). */
  class State {
    var inputs: seq<NeInput>
    var defaultInput: NeInput
    var libraries: seq<Library>
    var settings: Settings
    var inputPathMax: nat

    function Snapshot(current: NeInput): Parsing
      reads this
    {
      Parsing(settings, inputs, libraries, inputPathMax, defaultInput, current)
    }

    constructor (defaultInput: NeInput, settings: Settings)
      ensures this.defaultInput == defaultInput && this.settings == settings
      ensures inputs == [] && libraries == [] && inputPathMax == 0
    {
      this.defaultInput, this.settings := defaultInput, settings;
      inputs, libraries, inputPathMax := [], [], 0;
    }

    /** i_parse_argument. */
    method ParseArgument(arg: string, current: NeInput, priorityCount: int) returns (v: IA.Verdict, current': NeInput)
      modifies this
      ensures (v, settings, current') == Parse(arg, old(settings), current, priorityCount)
      ensures inputs == old(inputs) && libraries == old(libraries) && inputPathMax == old(inputPathMax)
      ensures defaultInput == old(defaultInput)
    {
      current' := current;
      if arg == [] {
        return IA.Consumed, current';
      } else if settings.nextIsFilter || settings.nextIsLibrary || settings.nextIsFile || settings.alwaysFile {
        return IA.Unconsumed, current';
      }
      v, current' := ApplyOption(ActionOf(arg), current, priorityCount);
    }

    /** The option part of i_parse_argument, once the table has named the
        option. */
    method ApplyOption(a: Action, current: NeInput, priorityCount: int) returns (v: IA.Verdict, current': NeInput)
      modifies this
      ensures (v, settings, current') == Apply(a, old(settings), current, priorityCount)
      ensures inputs == old(inputs) && libraries == old(libraries) && inputPathMax == old(inputPathMax)
      ensures defaultInput == old(defaultInput)
    {
      v, current' := IA.Consumed, current;
      match a {
      case Help => v := IA.HelpExit;
      case SetType(k) => current' := current.(dataType := k);
      case ToggleInplaceRegrain => current' := current.(inplaceRegrain := !current.inplaceRegrain);
      case ToggleInplaceOgg => current' := current.(inplaceOgg := !current.inplaceOgg);
      case LibraryNext => settings := settings.(nextIsLibrary := true);
      case InlineCodebooks => current' := current.(libraryIndex := INLINE);
      case ToggleStripped => current' := current.(strippedHeaders := !current.strippedHeaders);
      case ToggleAutoOgg => current' := current.(autoOgg := !current.autoOgg);
      case FilterNext(t) =>
        current' := current.(filter := current.filter.(filterType := t));
        settings := settings.(nextIsFilter := true);
      case ToggleFilterType => current' := current.(filter := current.filter.(filterType := Flipped(current.filter.filterType)));
      case ToggleNextIsFile => settings := settings.(nextIsFile := !settings.nextIsFile);
      case ToggleAlwaysFile => settings := settings.(alwaysFile := !settings.alwaysFile);
      case ToggleComments => current' := current.(addComments := !current.addComments);
      case ToggleDebug => current' := current.(logDebug := !current.logDebug);
      case ToggleColor => current' := current.(logColorEnabled := !current.logColorEnabled);
      case ToggleLogStyle => settings := settings.(logStyleEnabled := !settings.logStyleEnabled);
      case ToggleReportCard => settings := settings.(reportCard := !settings.reportCard);
      case ToggleFullReport => settings := settings.(fullReport := !settings.fullReport);
      case Quieter => current' := ModPriority(current, -1, priorityCount);
      case Louder => current' := ModPriority(current, 1, priorityCount);
      case ToggleLogging => current' := current.(logEnabled := !current.logEnabled);
      case ToggleDryRun => current' := current.(dryRun := !current.dryRun);
      case ToggleReset => settings := settings.(shouldReset := !settings.shouldReset);
      case NotAnOption => v := IA.Unconsumed;
      }
    }

    /** i_add_library: library_index is left at the library found or
        appended; -1 when a new path cannot be stat-ed. */
    method AddLibrary(arg: Argument, current: NeInput, maxPath: nat) returns (current': NeInput, code: int)
      requires CText(arg.text)
      modifies this
      ensures var (libs, index) := AddedLibrary(old(libraries), arg, maxPath);
        && current' == current.(libraryIndex := index)
        && code == (if libs.None? then -1 else 0)
        && libraries == (if libs.None? then old(libraries) else libs.value)
      ensures inputs == old(inputs) && settings == old(settings) && inputPathMax == old(inputPathMax)
      ensures defaultInput == old(defaultInput)
    {
      var i := 0;
      while i < |libraries|
        invariant 0 <= i <= |libraries|
        invariant forall j :: 0 <= j < i ==> libraries[j].path.cstr != Some(arg.text)
      {
        if libraries[i].path.cstr == Some(arg.text) {
          return current.(libraryIndex := i), 0;
        }
        i := i + 1;
      }
      current' := current.(libraryIndex := i);
      var path := NP.Init(arg.text, arg.stat, maxPath);
      if path.None? {
        return current', -1;
      }
      NP.InitValid(arg.text, arg.stat, maxPath);
      var found := NP.ExtensionCmp(path.value, null, ["ocbl"]);
      libraries := libraries + [Library(Status(false, found != -1, 0), path.value)];
      code := 0;
    }

    /** i_add_input: -1 when the path cannot be stat-ed; a path that is
        not a regular file is reported and skipped; otherwise the entry is
        replaced or appended. */
    method AddInput(arg: Argument, current: NeInput, maxPath: nat) returns (code: int)
      modifies this
      ensures code == (if arg.stat.StatFailed? then -1 else 0)
      ensures arg.stat == NP.Statted(true) ==>
        (inputs, inputPathMax) == AddedInput(old(inputs), old(inputPathMax), current.(path := NP.Init(arg.text, arg.stat, maxPath).value), arg.text)
      ensures arg.stat != NP.Statted(true) ==> inputs == old(inputs) && inputPathMax == old(inputPathMax)
      ensures libraries == old(libraries) && settings == old(settings) && defaultInput == old(defaultInput)
    {
      var path := NP.Init(arg.text, arg.stat, maxPath);
      if path.None? {
        return -1;
      }
      if !arg.stat.isFile {
        return 0;
      }
      var next := current.(path := path.value);
      var i := 0;
      while i < |inputs|
        invariant 0 <= i <= |inputs|
        invariant forall j :: 0 <= j < i ==> inputs[j].path.cstr != Some(arg.text)
      {
        if inputs[i].path.cstr == next.path.cstr {
          inputs := inputs[i := next];
          return 0;
        }
        i := i + 1;
      }
      inputs := inputs + [next];
      if next.path.length > inputPathMax {
        inputPathMax := next.path.length;
      }
      code := 0;
    }

    /** nestate_clear: the lists are released and every field but the
        statistics zeroed. */
    method Clear()
      modifies this
      ensures inputs == [] && libraries == [] && settings == NoSettings && defaultInput == ZeroInput
      ensures inputPathMax == old(inputPathMax)
    {
      inputs, libraries, settings, defaultInput := [], [], NoSettings, ZeroInput;
    }

    /** The loop body of nestate_init after i_parse_argument answered `v`
        (its settings and `current` already in place): the filter list,
        library or input the argument is. */
    method Dispatch(v: IA.Verdict, arg: Argument, current: NeInput, working: NF.Filter, maxPath: nat)
      returns (current': NeInput, o: Outcome)
      requires CText(arg.text) && (v == IA.Unconsumed ==> arg.text != [])
      modifies this, working
      ensures (Snapshot(current'), o) == Continued(old(Snapshot(current)), arg, (v, old(settings), current), maxPath)
    {
      current' := current;
      if v == IA.HelpExit {
        return current', Exit;
      } else if v == IA.Consumed {
        return current', Continue;
      } else if settings.nextIsFilter {
        working.filterType := current.filter.filterType;
        var code := NF.Init(working, arg.text);
        current' := current.(filter := FilterValue(working.list, working.filterType));
        settings := settings.(nextIsFilter := false);
        return current', Continue;
      } else if settings.nextIsLibrary {
        var code;
        current', code := AddLibrary(arg, current, maxPath);
        if code != 0 {
          Clear();
          return current', Failed;
        }
        settings := settings.(nextIsLibrary := false);
        return current', Continue;
      }
      var code := AddInput(arg, current, maxPath);
      if code != 0 {
        Clear();
        return current', Failed;
      }
      settings := settings.(nextIsFile := false);
      working.list, working.filterType := [], NF.White;
      if settings.shouldReset {
        current' := defaultInput;
      }
      o := Continue;
    }

    /** One pass of the loop of nestate_init. */
    method TakeOne(arg: Argument, current: NeInput, working: NF.Filter, priorityCount: int, maxPath: nat)
      returns (current': NeInput, o: Outcome)
      requires CText(arg.text)
      modifies this, working
      ensures (Snapshot(current'), o) == Step(old(Snapshot(current)), arg, priorityCount, maxPath)
    {
      var v;
      v, current' := ParseArgument(arg.text, current, priorityCount);
      current', o := Dispatch(v, arg, current', working, maxPath);
    }

    /** nestate_init: 0, or -1 with the state cleared when a path cannot
        be stat-ed; `o` is Exit when help ended the process. The state's
        default input is where `current` starts. */
    method Init(argv: seq<Argument>, priorityCount: int, maxPath: nat) returns (code: int, o: Outcome)
      requires AllText(argv)
      modifies this
      ensures o == Taken(old(Snapshot(defaultInput)), argv, priorityCount, maxPath).1
      ensures code == (if o == Failed then -1 else 0)
      ensures Snapshot(Taken(old(Snapshot(defaultInput)), argv, priorityCount, maxPath).0.current)
        == Taken(old(Snapshot(defaultInput)), argv, priorityCount, maxPath).0
    {
      var current := defaultInput;
      var working := new NF.Filter();
      ghost var start := Snapshot(defaultInput);
      var i := 0;
      o := Continue;
      while i < |argv| && o == Continue
        invariant 0 <= i <= |argv|
        invariant (Snapshot(current), o) == Taken(start, argv[..i], priorityCount, maxPath)
      {
        TakenOneMore(start, argv, i, priorityCount, maxPath);
        current, o := TakeOne(argv[i], current, working, priorityCount, maxPath);
        i := i + 1;
      }
      if i < |argv| {
        TakenStops(start, argv, i, priorityCount, maxPath);
      } else {
        assert argv[..i] == argv;
      }
      code := if o == Failed then -1 else 0;
    }

    /** neinput_library_load on library `index`. */
    method LoadLibrary(index: nat, data: LibraryData) returns (r: int)
      requires index < |libraries|
      modifies this
      ensures |libraries| == |old(libraries)|
      ensures (Some(libraries[index]), r) == LibraryLoad(Some(old(libraries[index])), data)
      ensures forall j :: 0 <= j < |libraries| && j != index ==> libraries[j] == old(libraries[j])
      ensures inputs == old(inputs) && settings == old(settings) && defaultInput == old(defaultInput)
      ensures inputPathMax == old(inputPathMax)
    {
      var lib := libraries[index];
      if lib.status.loadError != 0 {
        return lib.status.loadError;
      }
      if lib.status.loaded {
        return 0;
      }
      var err: int;
      var alternate := lib.status.alternate;
      match data {
      case Unreadable => err := -1;
      case NotALibrary => err := -1;
      case Deserialized(alt, ok) =>
        alternate := alt;
        err := if ok then 0 else -1;
      }
      var e := Bits14(err);
      libraries := libraries[index := lib.(status := Status(e == 0, alternate, e))];
      return e;
    }

    /** neinput_load_codebooks on the state's libraries (a null array when
        there are none): -1 for a null out-parameter; no library for an
        empty list or INLINE; otherwise the library is loaded and its
        codebooks handed out, or its error returned with NULL. */
    method LoadCodebooks(out: CodebooksOut?, index: int, data: LibraryData) returns (r: int)
      requires |libraries| > 0 && index != INLINE ==> 0 <= index < |libraries|
      modifies this, out
      ensures out == null ==> r == -1 && libraries == old(libraries)
      ensures out != null && (|old(libraries)| == 0 || index == INLINE) ==>
        r == 0 && out.library == None && libraries == old(libraries)
      ensures out != null && |old(libraries)| > 0 && index != INLINE ==>
        && |libraries| == |old(libraries)|
        && (Some(libraries[index]), r) == LibraryLoad(Some(old(libraries[index])), data)
        && out.library == (if r == 0 then Some(index) else None)
      ensures inputs == old(inputs) && settings == old(settings) && defaultInput == old(defaultInput)
    {
      if out == null {
        return -1;
      }
      out.library := None;
      if |libraries| > 0 && index != INLINE {
        var err := LoadLibrary(index, data);
        if err != 0 {
          return err;
        }
        out.library := Some(index);
      }
      return 0;
    }
  }
}
