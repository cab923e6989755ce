/** input.c (the code after its disabled block): the command-line state
    machine that turns arguments into option changes, codebook libraries
    and inputs, the first-dot extension finder, and the extension check
    used to guess a library's layout. Allocation failures are not part of
    this model; `priorityCount` is brrlog_priority_count. */
module InputArgs {
  import opened Wrappers
  import opened LibUtil

  /** neinput_typeT. */
  datatype InputType = Auto | Ogg | Wem | Wsp | Bnk

  /** The library_index "-inline" stores: (brrsz)-1, written as -1. */
  const INLINE: int := -1

  /** neinputT. */
  datatype NeInput = NeInput(path: string, kind: InputType, libraryIndex: int, logPriority: int,
    autoOgg: bool, inplaceOgg: bool, inplaceRegrain: bool, bankRecurse: bool, strippedHeaders: bool,
    logEnabled: bool, logColorEnabled: bool, logDebug: bool, dryRun: bool)

  /** The one-bit options of nestateT. */
  datatype Flags = Flags(shouldReset: bool, logStyleEnabled: bool, nextIsFile: bool, alwaysFile: bool,
    nextIsLibrary: bool, reportCard: bool, fullReport: bool)

  /** neinput_libraryT as i_add_library creates it: its path and the `old`
      flag; the codebooks, `loaded` and `load_error` start zeroed. */
  datatype LibraryEntry = LibraryEntry(path: string, oldLayout: bool)

  // ---------------------------------------------------------------------
  // i_find_ext

  /** The loop of i_find_ext from position i down, `dot` the dot found so
      far (|s| for none): it keeps moving to earlier dots and stops at a
      separator. */
  function FindScan(s: string, i: nat, dot: nat): (r: nat)
    requires i <= |s| && (dot == |s| || (i <= dot < |s| && s[dot] == '.'))
    ensures r == |s| || (r < |s| && s[r] == '.')
    decreases i
  {
    if i == 0 then dot
    else if s[i - 1] == '.' then FindScan(s, i - 1, i - 1)
    else if s[i - 1] == SEP then dot
    else FindScan(s, i - 1, dot)
  }

  /** What i_find_ext answers: the first dot of the last component, -1
      when it has none. */
  function FindExtOf(s: string): (r: int)
    ensures -1 <= r < |s|
  {
    var d := FindScan(s, |s|, |s|);
    if d == |s| then -1 else d
  }

  /** i_find_ext. */
  method FindExt(s: string) returns (r: int)
    ensures r == FindExtOf(s)
  {
    var dot: nat := |s|;
    var i: nat := |s|;
    while i > 0
      invariant i <= |s| && (dot == |s| || (i <= dot < |s| && s[dot] == '.'))
      invariant FindScan(s, i, dot) == FindScan(s, |s|, |s|)
    {
      var c := s[i - 1];
      if c == '.' {
        dot := i - 1;
      } else if c == SEP {
        break;
      }
      i := i - 1;
    }
    if dot == |s| {
      return -1;
    }
    return dot;
  }

  /** The scan's answer, described without the scan: the first dot after
      the last separator. */
  lemma FindExtIsFirstDotOfName(s: string)
    ensures FindExtOf(s) == -1 <==> forall j :: NameStart(s) <= j < |s| ==> s[j] != '.'
    ensures FindExtOf(s) >= 0 ==> (NameStart(s) <= FindExtOf(s) && s[FindExtOf(s)] == '.'
      && forall j :: NameStart(s) <= j < FindExtOf(s) ==> s[j] != '.')
  {
    ScanFindsFirst(s, |s|, |s|);
  }

  /** Induction for FindExtIsFirstDotOfName: from position i, the scan ends
      at the first dot of the stretch back to the last separator before i,
      or keeps `dot` when that stretch has none. */
  lemma {:induction false} ScanFindsFirst(s: string, i: nat, dot: nat)
    requires i <= |s| && (dot == |s| || (i <= dot < |s| && s[dot] == '.'))
    requires forall j :: i <= j < dot && j < |s| ==> s[j] != '.'
    requires forall j :: i <= j < |s| ==> s[j] != SEP
    ensures var r := FindScan(s, i, dot);
      (r == |s| <==> forall j :: NameStart(s) <= j < |s| ==> s[j] != '.')
      && (r < |s| ==> NameStart(s) <= r && forall j :: NameStart(s) <= j < r ==> s[j] != '.')
    decreases i
  {
    var st := NameStart(s);
    if i == 0 {
      assert st == 0;
    } else if s[i - 1] == '.' {
      ScanFindsFirst(s, i - 1, i - 1);
    } else if s[i - 1] == SEP {
      LastIndexIs(s, SEP, Some(i - 1));
      assert st == i;
    } else {
      ScanFindsFirst(s, i - 1, dot);
    }
  }

  /** The lookup from the other end: i_find_ext takes the FIRST dot of the
      name where nepath's i_ext_index takes the last. */
  lemma FirstDotOfArchive()
    ensures FindExtOf("a.tar.gz") == 1
  {
    var s := "a.tar.gz";
    assert s[1] == '.' && s[0] != '.' && s[0] != SEP;
    assert forall j :: 0 <= j < |s| ==> s[j] != SEP;
    LastIndexIs(s, SEP, None);
    FindExtIsFirstDotOfName(s);
  }

  // ---------------------------------------------------------------------
  // neinput_check_extension

  /** strcmp (case-sensitive) or strcasecmp. */
  predicate SameText(a: string, b: string, caseSensitive: bool) {
    FoldAll(a, !caseSensitive) == FoldAll(b, !caseSensitive)
  }

  /** The first candidate equal to `arg`, -1 when there is none. */
  function FirstEqual(arg: string, caseSensitive: bool, candidates: seq<string>): (k: int)
    ensures -1 <= k < |candidates|
    ensures k >= 0 ==> (SameText(arg, candidates[k], caseSensitive)
      && forall j :: 0 <= j < k ==> !SameText(arg, candidates[j], caseSensitive))
    ensures k == -1 ==> forall j :: 0 <= j < |candidates| ==> !SameText(arg, candidates[j], caseSensitive)
  {
    if candidates == [] then -1
    else if SameText(arg, candidates[0], caseSensitive) then 0
    else
      var k := FirstEqual(arg, caseSensitive, candidates[1..]);
      if k == -1 then -1 else k + 1
  }

  /** What neinput_check_extension answers: -1 for an argument without a
      dot in its name; otherwise the WHOLE argument (not its extension) is
      compared with each candidate in turn, and a match answers the dot's
      index plus the candidate's position. */
  function CheckExtensionOf(arg: string, caseSensitive: bool, candidates: seq<string>): (r: int)
    ensures r == -1 || r >= FindExtOf(arg) >= 0
  {
    var dot := FindExtOf(arg);
    if dot == -1 then -1
    else
      var k := FirstEqual(arg, caseSensitive, candidates);
      if k == -1 then -1 else dot + k
  }

  /** neinput_check_extension; its copy of the extension into a static
      buffer is never read and is not modelled. */
  method CheckExtension(arg: string, caseSensitive: bool, candidates: seq<string>) returns (r: int)
    ensures r == CheckExtensionOf(arg, caseSensitive, candidates)
  {
    var idx := FindExt(arg);
    if idx == -1 {
      return -1;
    }
    var found := false;
    var i := 0;
    while i < |candidates|
      invariant 0 <= i <= |candidates|
      invariant idx == FindExtOf(arg) + i
      invariant forall j :: 0 <= j < i ==> !SameText(arg, candidates[j], caseSensitive)
    {
      if SameText(arg, candidates[i], caseSensitive) {
        found := true;
        break;
      }
      idx := idx + 1;
      i := i + 1;
    }
    if found {
      return idx;
    }
    return -1;
  }

  /** No argument can match a candidate without a dot: the argument has
      one (or the check gives up first), and folding keeps dots where they
      are. So the "ocbl" check of i_add_library never succeeds. */
  lemma UndottedCandidateNeverMatches(arg: string, caseSensitive: bool, candidates: seq<string>)
    requires forall j :: 0 <= j < |candidates| ==> '.' !in candidates[j]
    ensures CheckExtensionOf(arg, caseSensitive, candidates) == -1
  {
  }

  /** The characters after the dot i_find_ext finds, if it finds one. */
  function ExtensionOf(arg: string): (e: Option<string>)
    ensures e.None? <==> FindExtOf(arg) == -1
    ensures e.Some? ==> e.value == arg[FindExtOf(arg) + 1..]
  {
    var dot := FindExtOf(arg);
    if dot == -1 then None else Some(arg[dot + 1..])
  }

  /** The evident intent: compare the characters after the extension's dot
      with the candidates, answering the candidate's position. */
  function CheckExtensionIntended(arg: string, caseSensitive: bool, candidates: seq<string>): (r: int)
    ensures -1 <= r < |candidates|
    ensures r >= 0 ==> ExtensionOf(arg).Some? && SameText(ExtensionOf(arg).value, candidates[r], caseSensitive)
    ensures r == -1 && ExtensionOf(arg).Some? ==>
      forall j :: 0 <= j < |candidates| ==> !SameText(ExtensionOf(arg).value, candidates[j], caseSensitive)
  {
    match ExtensionOf(arg)
    case None => -1
    case Some(e) => FirstEqual(e, caseSensitive, candidates)
  }

  /** A library file named "lib.OCBL" is missed by the check as written. */
  lemma OcblMissedAsWritten()
    ensures CheckExtensionOf("lib.OCBL", false, ["ocbl"]) == -1
  {
    UndottedCandidateNeverMatches("lib.OCBL", false, ["ocbl"]);
  }

  /** The intended check finds "lib.OCBL" (case-insensitively). */
  lemma OcblFoundIntended()
    ensures CheckExtensionIntended("lib.OCBL", false, ["ocbl"]) == 0
  {
    var s := "lib.OCBL";
    assert s[3] == '.' && forall j :: 0 <= j < |s| ==> s[j] != SEP;
    assert forall j :: 0 <= j < 3 ==> s[j] != '.';
    LastIndexIs(s, SEP, None);
    FindExtIsFirstDotOfName(s);
    assert FindExtOf(s) == 3;
    assert ExtensionOf(s).value == s[4..] == "OCBL";
    assert FoldAll("OCBL", true) == "ocbl" == FoldAll("ocbl", true);
  }

  // ---------------------------------------------------------------------
  // i_mod_priority and the option table

  /** i_mod_priority: a non-positive delta lowers the priority (not below
      0) and turns logging off at 0 unless debugging; a positive one raises
      it (not past priorityCount - 1) and turns logging on. */
  function ModPriority(cur: NeInput, delta: int, priorityCount: int): (r: NeInput)
    ensures r == cur.(logPriority := r.logPriority, logEnabled := r.logEnabled)
  {
    if delta <= 0 then
      var p := if cur.logPriority > 0 then cur.logPriority - 1 else cur.logPriority;
      cur.(logPriority := p, logEnabled := if p == 0 && !cur.logDebug then false else cur.logEnabled)
    else
      cur.(logPriority := if cur.logPriority < priorityCount - 1 then cur.logPriority + 1 else cur.logPriority,
           logEnabled := true)
  }

  /** Quieting keeps the priority within [0, priorityCount - 1], lowers
      it by one unless it is 0, and silences at 0 unless debugging. */
  lemma QuieterStaysInRange(cur: NeInput, priorityCount: int)
    requires 0 <= cur.logPriority < priorityCount
    ensures var r := ModPriority(cur, -1, priorityCount);
      && 0 <= r.logPriority < priorityCount
      && r.logPriority == (if cur.logPriority == 0 then 0 else cur.logPriority - 1)
      && r.logEnabled == (cur.logEnabled && (r.logPriority != 0 || cur.logDebug))
  {
  }

  /** Raising keeps the priority within [0, priorityCount - 1], raises it
      by one unless it is at the top, and always enables logging. */
  lemma LouderStaysInRange(cur: NeInput, priorityCount: int)
    requires 0 <= cur.logPriority < priorityCount
    ensures var r := ModPriority(cur, 1, priorityCount);
      && 0 <= r.logPriority < priorityCount
      && r.logPriority == (if cur.logPriority == priorityCount - 1 then cur.logPriority else cur.logPriority + 1)
      && r.logEnabled
  {
  }

  /** What an option argument does. */
  datatype Action = Help | SetType(kind: InputType) | ToggleInplaceRegrain | ToggleInplaceOgg
    | LibraryNext | InlineCodebooks | ToggleStripped | ToggleAutoOgg | ToggleBankRecurse
    | ToggleNextIsFile | ToggleAlwaysFile | ToggleDebug | ToggleColor | ToggleLogStyle
    | ToggleReportCard | ToggleFullReport | Quieter | Louder | ToggleLogging | ToggleDryRun
    | ToggleReset | NotAnOption

  /** One line of an option table: whether its spellings are compared
      case-sensitively (strcmp) or not (strcasecmp), the spellings, and
      what they do. */
  datatype OptionLine<A> = OptionLine(caseSensitive: bool, names: seq<string>, action: A)

  /** The action of the first line naming `arg`, `none` when no line does:
      the chain of brrstg_cstr_compare tests of an option parser. */
  function Lookup<A>(arg: string, table: seq<OptionLine<A>>, none: A): (a: A)
    ensures (forall k :: 0 <= k < |table| ==> FirstEqual(arg, table[k].caseSensitive, table[k].names) == -1) ==> (a == none)
    ensures forall k :: (0 <= k < |table| && FirstEqual(arg, table[k].caseSensitive, table[k].names) != -1
      && forall i :: 0 <= i < k ==> FirstEqual(arg, table[i].caseSensitive, table[i].names) == -1) ==> a == table[k].action
  {
    if table == [] then none
    else if FirstEqual(arg, table[0].caseSensitive, table[0].names) != -1 then table[0].action
    else
      var a := Lookup(arg, table[1..], none);
      assert forall k :: 1 <= k < |table| ==> table[k] == table[1..][k - 1];
      a
  }

  /** The option table of i_parse_argument; only the help spellings ignore
      case. */
  const OptionTable: seq<OptionLine<Action>> := [
    OptionLine(false, ["-h", "-help", "--help", "-v", "-version", "--version"], Help),
    OptionLine(true, ["-a", "-auto", "-detect"], SetType(Auto)),
    OptionLine(true, ["-w", "-wem", "-weem"], SetType(Wem)),
    OptionLine(true, ["-W", "-wsp", "-wisp"], SetType(Wsp)),
    OptionLine(true, ["-b", "-bnk", "-bank"], SetType(Bnk)),
    OptionLine(true, ["-o", "-ogg"], SetType(Ogg)),
    OptionLine(true, ["-ri", "-rgrn-inplace", "-rvb-inplace"], ToggleInplaceRegrain),
    OptionLine(true, ["-oi", "-ogg-inplace"], ToggleInplaceOgg),
    OptionLine(true, ["-cbl", "-codebook-library"], LibraryNext),
    OptionLine(true, ["-inline"], InlineCodebooks),
    OptionLine(true, ["-stripped"], ToggleStripped),
    OptionLine(true, ["-w2o", "-wem2ogg"], ToggleAutoOgg),
    OptionLine(true, ["-Rbnk", "-recurse_bank"], ToggleBankRecurse),
    OptionLine(true, ["-!"], ToggleNextIsFile),
    OptionLine(true, ["--"], ToggleAlwaysFile),
    OptionLine(true, ["-d", "-debug"], ToggleDebug),
    OptionLine(true, ["-c", "-color"], ToggleColor),
    OptionLine(true, ["-C", "-state-color"], ToggleLogStyle),
    OptionLine(true, ["-r", "-report-card"], ToggleReportCard),
    OptionLine(true, ["+r", "-full-report"], ToggleFullReport),
    OptionLine(true, ["-q", "-quiet"], Quieter),
    OptionLine(true, ["+q", "+quiet"], Louder),
    OptionLine(true, ["-Q", "-qq", "too-quiet"], ToggleLogging),
    OptionLine(true, ["-n", "-dry", "-dry-run"], ToggleDryRun),
    OptionLine(true, ["-reset"], ToggleReset)
  ]

  function ActionOf(arg: string): Action {
    Lookup(arg, OptionTable, NotAnOption)
  }

  /** What i_parse_argument answers: 1 (consumed), 0 (not an option), or
      the process exits after printing help. */
  datatype Verdict = Consumed | Unconsumed | HelpExit

  /** What i_parse_argument answers for an option. */
  function VerdictOf(a: Action): Verdict {
    match a
    case Help => HelpExit
    case NotAnOption => Unconsumed
    case _ => Consumed
  }

  /** The effect of an option on the state's flags. */
  function FlagsAfter(a: Action, f: Flags): Flags {
    match a
    case LibraryNext => f.(nextIsLibrary := true)
    case ToggleNextIsFile => f.(nextIsFile := !f.nextIsFile)
    case ToggleAlwaysFile => f.(alwaysFile := !f.alwaysFile)
    case ToggleLogStyle => f.(logStyleEnabled := !f.logStyleEnabled)
    case ToggleReportCard => f.(reportCard := !f.reportCard)
    case ToggleFullReport => f.(fullReport := !f.fullReport)
    case ToggleReset => f.(shouldReset := !f.shouldReset)
    case _ => f
  }

  /** The effect of an option on the current input. */
  function InputAfter(a: Action, cur: NeInput, priorityCount: int): NeInput {
    match a
    case SetType(k) => cur.(kind := k)
    case ToggleInplaceRegrain => cur.(inplaceRegrain := !cur.inplaceRegrain)
    case ToggleInplaceOgg => cur.(inplaceOgg := !cur.inplaceOgg)
    case InlineCodebooks => cur.(libraryIndex := INLINE)
    case ToggleStripped => cur.(strippedHeaders := !cur.strippedHeaders)
    case ToggleAutoOgg => cur.(autoOgg := !cur.autoOgg)
    case ToggleBankRecurse => cur.(bankRecurse := !cur.bankRecurse)
    case ToggleDebug => cur.(logDebug := !cur.logDebug)
    case ToggleColor => cur.(logColorEnabled := !cur.logColorEnabled)
    case Quieter => ModPriority(cur, -1, priorityCount)
    case Louder => ModPriority(cur, 1, priorityCount)
    case ToggleLogging => cur.(logEnabled := !cur.logEnabled)
    case ToggleDryRun => cur.(dryRun := !cur.dryRun)
    case _ => cur
  }

  /** The effect of one option. */
  function Apply(a: Action, f: Flags, cur: NeInput, priorityCount: int): (Verdict, Flags, NeInput) {
    (VerdictOf(a), FlagsAfter(a, f), InputAfter(a, cur, priorityCount))
  }

  /** i_parse_argument: an empty argument is consumed; while a file or a
      library is pending, or every argument is a file, nothing is an option
      (a pending "-!" is used up); otherwise the option table decides. */
  function Parse(arg: string, f: Flags, cur: NeInput, priorityCount: int): (Verdict, Flags, NeInput) {
    if arg == [] then (Consumed, f, cur)
    else if f.alwaysFile then (Unconsumed, f, cur)
    else if f.nextIsFile then (Unconsumed, f.(nextIsFile := false), cur)
    else if f.nextIsLibrary then (Unconsumed, f, cur)
    else Apply(ActionOf(arg), f, cur, priorityCount)
  }

  /** The guards in front of the option table. */
  lemma ParseGuards(arg: string, f: Flags, cur: NeInput, priorityCount: int)
    ensures arg == [] ==> Parse(arg, f, cur, priorityCount) == (Consumed, f, cur)
    ensures arg != [] && (f.alwaysFile || (!f.nextIsFile && f.nextIsLibrary)) ==> Parse(arg, f, cur, priorityCount) == (Unconsumed, f, cur)
    ensures arg != [] && !f.alwaysFile && f.nextIsFile ==>
      Parse(arg, f, cur, priorityCount) == (Unconsumed, f.(nextIsFile := false), cur)
  {
  }

  /** The options that toggle one of the state's flags. */
  predicate IsFlagToggle(a: Action) {
    match a
    case ToggleNextIsFile | ToggleAlwaysFile | ToggleLogStyle | ToggleReportCard | ToggleFullReport | ToggleReset => true
    case _ => false
  }

  /** The options that toggle one bit of the current input. */
  predicate IsInputToggle(a: Action) {
    match a
    case ToggleInplaceRegrain | ToggleInplaceOgg | ToggleStripped | ToggleAutoOgg | ToggleBankRecurse
      | ToggleDebug | ToggleColor | ToggleLogging | ToggleDryRun => true
    case _ => false
  }

  /** A flag toggle flips one flag of the state and leaves the input
      alone: it changes the flags, and giving it twice restores them. */
  lemma FlagToggleTwiceRestores(a: Action, f: Flags, cur: NeInput, priorityCount: int)
    requires IsFlagToggle(a)
    ensures VerdictOf(a) == Consumed && InputAfter(a, cur, priorityCount) == cur
    ensures FlagsAfter(a, f) != f && FlagsAfter(a, FlagsAfter(a, f)) == f
  {
  }

  /** An input toggle flips one bit of the current input and leaves the
      flags alone: it changes the input, and giving it twice restores it. */
  lemma InputToggleTwiceRestores(a: Action, f: Flags, cur: NeInput, priorityCount: int)
    requires IsInputToggle(a)
    ensures VerdictOf(a) == Consumed && FlagsAfter(a, f) == f
    ensures InputAfter(a, cur, priorityCount) != cur
    ensures InputAfter(a, InputAfter(a, cur, priorityCount), priorityCount) == cur
  {
  }

  /** Type options change only the type; an argument outside the table
      changes nothing and is left for the file list. */
  lemma SetTypeOnlySetsType(a: Action, f: Flags, cur: NeInput, priorityCount: int)
    ensures a.SetType? ==> Apply(a, f, cur, priorityCount) == (Consumed, f, cur.(kind := a.kind))
    ensures a == NotAnOption ==> Apply(a, f, cur, priorityCount) == (Unconsumed, f, cur)
  {
  }

  /** Case-sensitive comparison is plain equality. */
  lemma UnfoldedIsSame(s: string)
    ensures FoldAll(s, false) == s
  {
  }

  /** A line's spellings all start with '-' or '+', except a case-sensitive
      "too-quiet". */
  predicate SignedLine<A>(line: OptionLine<A>) {
    forall j :: 0 <= j < |line.names| ==>
      (line.names[j] == "too-quiet" && line.caseSensitive) || (line.names[j] != [] && line.names[j][0] in "-+")
  }

  /** Folding does not make a '-' or '+' out of anything else. */
  lemma SignFolds(arg: string, name: string, caseSensitive: bool)
    requires arg != [] && arg[0] !in "-+" && name != [] && name[0] in "-+"
    ensures !SameText(arg, name, caseSensitive)
  {
  }

  /** An argument starting with neither '-' nor '+' matches no line whose
      spellings are signed. */
  lemma {:induction false} UnsignedMissesTable<A>(arg: string, table: seq<OptionLine<A>>, none: A)
    requires arg != [] && arg[0] !in "-+" && arg != "too-quiet"
    requires forall k :: 0 <= k < |table| ==> SignedLine(table[k])
    ensures Lookup(arg, table, none) == none
  {
    forall k | 0 <= k < |table|
      ensures FirstEqual(arg, table[k].caseSensitive, table[k].names) == -1
    {
      var line := table[k];
      forall j | 0 <= j < |line.names|
        ensures !SameText(arg, line.names[j], line.caseSensitive)
      {
        if line.names[j] == "too-quiet" && line.caseSensitive {
          UnfoldedIsSame(arg);
          UnfoldedIsSame(line.names[j]);
        } else {
          SignFolds(arg, line.names[j], line.caseSensitive);
        }
      }
    }
  }

  /** Every line of the option table is signed. */
  lemma OptionTableSigned()
    ensures forall k :: 0 <= k < |OptionTable| ==> SignedLine(OptionTable[k])
  {
  }

  /** An argument that starts with neither '-' nor '+' (other than the
      dash-less spelling "too-quiet") is not an option. */
  lemma PlainArgumentIsNotAnOption(arg: string)
    requires arg != [] && arg[0] != '-' && arg[0] != '+' && arg != "too-quiet"
    ensures ActionOf(arg) == NotAnOption
  {
    OptionTableSigned();
    UnsignedMissesTable(arg, OptionTable, NotAnOption);
  }

  // ---------------------------------------------------------------------
  // The library and input lists

  /** The first path equal to `path`. */
  function FirstIndex(paths: seq<string>, path: string): (r: Option<nat>)
    ensures r.Some? ==> r.value < |paths| && paths[r.value] == path && forall j :: 0 <= j < r.value ==> paths[j] != path
    ensures r.None? <==> path !in paths
  {
    if paths == [] then None
    else if paths[0] == path then Some(0)
    else match FirstIndex(paths[1..], path)
      case None => None
      case Some(k) => Some(k + 1)
  }

  predicate Distinct(paths: seq<string>) {
    forall i, j :: 0 <= i < j < |paths| ==> paths[i] != paths[j]
  }

  function LibraryPaths(libraries: seq<LibraryEntry>): (p: seq<string>)
    ensures |p| == |libraries| && forall i :: 0 <= i < |p| ==> p[i] == libraries[i].path
  {
    seq(|libraries|, i requires 0 <= i < |libraries| => libraries[i].path)
  }

  function InputPaths(inputs: seq<NeInput>): (p: seq<string>)
    ensures |p| == |inputs| && forall i :: 0 <= i < |p| ==> p[i] == inputs[i].path
  {
    seq(|inputs|, i requires 0 <= i < |inputs| => inputs[i].path)
  }

  /** i_add_library as evidently meant (each library compared through
      `(*libraries)[i]`): the library already listed under `arg`, or a new
      one appended with `old` set when the extension check says "ocbl";
      the answer is the list and the index left in library_index. */
  function AddedLibrary(libraries: seq<LibraryEntry>, arg: string): (r: (seq<LibraryEntry>, nat))
    ensures r.1 < |r.0| && r.0[r.1].path == arg
    ensures libraries <= r.0 && |r.0| == |libraries| + (if arg in LibraryPaths(libraries) then 0 else 1)
    ensures Distinct(LibraryPaths(libraries)) ==> Distinct(LibraryPaths(r.0))
  {
    match FirstIndex(LibraryPaths(libraries), arg)
    case Some(i) => (libraries, i)
    case None =>
      var r := libraries + [LibraryEntry(arg, CheckExtensionOf(arg, false, ["ocbl"]) != -1)];
      assert LibraryPaths(r) == LibraryPaths(libraries) + [arg];
      (r, |libraries|)
  }

  /** A new library is never marked as the old layout, because the
      extension check compares the whole name with "ocbl". */
  lemma NewLibraryNeverOld(libraries: seq<LibraryEntry>, arg: string)
    ensures forall e :: e in AddedLibrary(libraries, arg).0 && e !in libraries ==> !e.oldLayout
  {
    UndottedCandidateNeverMatches(arg, false, ["ocbl"]);
  }

  /** The loop of i_add_library as written reads `libraries[i]->`, a
      pointer next to `libraries` rather than element i of the array; that
      is element i only for i = 0. It is defined when the loop stops before
      reaching index 1. */
  predicate AsWrittenDefined(libraries: seq<LibraryEntry>, arg: string) {
    |libraries| <= 1 || libraries[0].path == arg
  }

  /** Where the as-written lookup is defined, it gives the intended
      answer: the first comparison, or no comparison at all, decides. */
  lemma AsWrittenAgrees(libraries: seq<LibraryEntry>, arg: string)
    requires AsWrittenDefined(libraries, arg)
    ensures |libraries| >= 1 && libraries[0].path == arg ==> AddedLibrary(libraries, arg) == (libraries, 0)
    ensures (|libraries| == 0 || libraries[0].path != arg) ==>
      AddedLibrary(libraries, arg).1 == |libraries| && |AddedLibrary(libraries, arg).0| == |libraries| + 1
  {
  }

  /** A third library: "-cbl a.cbl -cbl b.cbl -cbl c.cbl" reaches index 1
      with the as-written lookup, while the intended one appends it. */
  lemma ThirdLibraryOverruns()
    ensures var libs := [LibraryEntry("a.cbl", false), LibraryEntry("b.cbl", false)];
      !AsWrittenDefined(libs, "c.cbl") && AddedLibrary(libs, "c.cbl").1 == 2
  {
    var libs := [LibraryEntry("a.cbl", false), LibraryEntry("b.cbl", false)];
    assert "a.cbl"[0] != "c.cbl"[0] && "b.cbl"[0] != "c.cbl"[0];
    assert "c.cbl" !in LibraryPaths(libs);
  }

  /** i_add_input's list: an input already listed under the path is
      replaced by the new entry, otherwise the entry is appended. */
  function AddedInput(inputs: seq<NeInput>, next: NeInput): (r: seq<NeInput>)
    ensures next in r
    ensures |r| == |inputs| + (if next.path in InputPaths(inputs) then 0 else 1)
    ensures forall i :: 0 <= i < |inputs| && inputs[i].path != next.path ==> r[i] == inputs[i]
    ensures Distinct(InputPaths(inputs)) ==> Distinct(InputPaths(r))
  {
    match FirstIndex(InputPaths(inputs), next.path)
    case Some(i) =>
      var r := inputs[i := next];
      assert r[i] == next;
      assert InputPaths(r) == InputPaths(inputs)[i := next.path];
      r
    case None =>
      var r := inputs + [next];
      assert InputPaths(r) == InputPaths(inputs) + [next.path];
      r
  }

  /** The longest input path seen, updated only when an input is
      appended. */
  function Widest(pathMax: nat, path: string): (m: nat)
    ensures m >= pathMax && m >= |path| && (m == pathMax || m == |path|)
  {
    if |path| > pathMax then |path| else pathMax
  }

  // ---------------------------------------------------------------------
  // neinput_take_inputs

  /** Everything the argument loop changes: the state's flags, lists and
      widest path, and the local `current`. */
  datatype Parsing = Parsing(flags: Flags, inputs: seq<NeInput>, libraries: seq<LibraryEntry>,
    inputPathMax: nat, current: NeInput)

  /** One argument of neinput_take_inputs: consumed options are done;
      otherwise the argument names a library (after "-cbl") or an input,
      and with should_reset the current options go back to the defaults.
      The flag is true when help ends the process. */
  function Step(p: Parsing, arg: string, default: NeInput, priorityCount: int): (r: (Parsing, bool))
    ensures r.1 <==> Parse(arg, p.flags, p.current, priorityCount).0 == HelpExit
    ensures |p.inputs| <= |r.0.inputs| <= |p.inputs| + 1 && p.libraries <= r.0.libraries
    ensures |r.0.libraries| <= |p.libraries| + 1 && r.0.inputPathMax >= p.inputPathMax
    ensures Parse(arg, p.flags, p.current, priorityCount).0 != Unconsumed ==>
      r.0.inputs == p.inputs && r.0.libraries == p.libraries
  {
    var (v, f, cur) := Parse(arg, p.flags, p.current, priorityCount);
    if v == HelpExit then (p.(flags := f, current := cur), true)
    else if v == Consumed then (p.(flags := f, current := cur), false)
    else
      var q :=
        if f.nextIsLibrary then
          var (libs, index) := AddedLibrary(p.libraries, arg);
          p.(flags := f.(nextIsLibrary := false), libraries := libs, current := cur.(libraryIndex := index))
        else
          p.(flags := f, inputs := AddedInput(p.inputs, cur.(path := arg)),
             inputPathMax := if arg in InputPaths(p.inputs) then p.inputPathMax else Widest(p.inputPathMax, arg),
             current := cur);
      (if q.flags.shouldReset then q.(current := default) else q, false)
  }

  /** The loop over the arguments, stopping when help ends the process. */
  function Taken(p: Parsing, args: seq<string>, default: NeInput, priorityCount: int): (r: (Parsing, bool))
    ensures |p.inputs| <= |r.0.inputs| <= |p.inputs| + |args| && p.libraries <= r.0.libraries
    ensures |r.0.libraries| <= |p.libraries| + |args| && r.0.inputPathMax >= p.inputPathMax
    decreases |args|
  {
    if args == [] then (p, false)
    else
      var (q, exited) := Taken(p, args[..|args| - 1], default, priorityCount);
      if exited then (q, true) else Step(q, args[|args| - 1], default, priorityCount)
  }

  /** The loop one argument further. */
  lemma TakenOneMore(p: Parsing, args: seq<string>, i: nat, default: NeInput, priorityCount: int)
    requires i < |args| && !Taken(p, args[..i], default, priorityCount).1
    ensures Taken(p, args[..i + 1], default, priorityCount) == Step(Taken(p, args[..i], default, priorityCount).0, args[i], default, priorityCount)
  {
    assert args[..i + 1][..i] == args[..i];
  }

  /** Once help has ended the process, later arguments change nothing. */
  lemma {:induction false} TakenStopsAtHelp(p: Parsing, args: seq<string>, k: nat, default: NeInput, priorityCount: int)
    requires k <= |args| && Taken(p, args[..k], default, priorityCount).1
    ensures Taken(p, args, default, priorityCount) == Taken(p, args[..k], default, priorityCount)
    decreases |args| - k
  {
    if k == |args| {
      assert args[..k] == args;
    } else {
      var prefix := args[..|args| - 1];
      assert prefix[..k] == args[..k];
      TakenStopsAtHelp(p, prefix, k, default, priorityCount);
      ExitedStays(p, args, default, priorityCount);
    }
  }

  /** One step of Taken after the process has ended. */
  lemma ExitedStays(p: Parsing, args: seq<string>, default: NeInput, priorityCount: int)
    requires args != [] && Taken(p, args[..|args| - 1], default, priorityCount).1
    ensures Taken(p, args, default, priorityCount) == Taken(p, args[..|args| - 1], default, priorityCount)
  {
  }

  /** The lists never hold the same path twice, and the widest path is at
      least as wide as every input's. */
  predicate Wf(p: Parsing) {
    && Distinct(InputPaths(p.inputs)) && Distinct(LibraryPaths(p.libraries))
    && forall i :: 0 <= i < |p.inputs| ==> |p.inputs[i].path| <= p.inputPathMax
  }

  /** Repeating a path replaces its entry instead of adding a second one,
      and the widest path keeps up with the inputs. */
  lemma {:induction false} TakenKeepsWf(p: Parsing, args: seq<string>, default: NeInput, priorityCount: int)
    requires Wf(p)
    ensures Wf(Taken(p, args, default, priorityCount).0)
    decreases |args|
  {
    if args != [] {
      TakenKeepsWf(p, args[..|args| - 1], default, priorityCount);
      var (q, exited) := Taken(p, args[..|args| - 1], default, priorityCount);
      if !exited {
        StepKeepsWf(q, args[|args| - 1], default, priorityCount);
      }
    }
  }

  lemma StepKeepsWf(p: Parsing, arg: string, default: NeInput, priorityCount: int)
    requires Wf(p)
    ensures Wf(Step(p, arg, default, priorityCount).0)
  {
    var (v, f, cur) := Parse(arg, p.flags, p.current, priorityCount);
    if v == Unconsumed && !f.nextIsLibrary {
      InputAddedWf(p.inputs, cur.(path := arg), p.inputPathMax);
    }
  }

  /** Adding an input keeps its list's paths distinct and the widest path
      covering them. */
  lemma InputAddedWf(inputs: seq<NeInput>, next: NeInput, pathMax: nat)
    requires Distinct(InputPaths(inputs)) && forall i :: 0 <= i < |inputs| ==> |inputs[i].path| <= pathMax
    ensures var r := AddedInput(inputs, next);
      var m := if next.path in InputPaths(inputs) then pathMax else Widest(pathMax, next.path);
      Distinct(InputPaths(r)) && forall i :: 0 <= i < |r| ==> |r[i].path| <= m
  {
    var r := AddedInput(inputs, next);
    if next.path in InputPaths(inputs) {
      forall i | 0 <= i < |r|
        ensures |r[i].path| <= pathMax
      {
        if inputs[i].path == next.path {
          assert r[i] == next;
        }
      }
    }
  }

  /** A plain file name with nothing pending becomes an input carrying the
      current options, and the widest path accounts for it. */
  lemma PlainArgumentBecomesInput(p: Parsing, arg: string, default: NeInput, priorityCount: int)
    requires Wf(p)
    requires arg != [] && arg[0] != '-' && arg[0] != '+' && arg != "too-quiet"
    requires !p.flags.nextIsLibrary
    ensures var (q, exited) := Step(p, arg, default, priorityCount);
      !exited && p.current.(path := arg) in q.inputs && q.inputPathMax >= |arg| && q.libraries == p.libraries
  {
    PlainArgumentIsNotAnOption(arg);
    StepKeepsWf(p, arg, default, priorityCount);
  }

  /** After "-cbl", the next argument names a library and the current
      input uses it. */
  lemma LibraryArgumentIsSelected(p: Parsing, arg: string, default: NeInput, priorityCount: int)
    requires arg != [] && !p.flags.alwaysFile && p.flags.nextIsLibrary
    ensures var (q, exited) := Step(p, arg, default, priorityCount);
      !exited && !q.flags.nextIsLibrary && q.inputs == p.inputs
      && exists i :: (0 <= i < |q.libraries| && q.libraries[i].path == arg
        && (!q.flags.shouldReset ==> q.current.libraryIndex == i))
  {
    var index := AddedLibrary(p.libraries, arg).1;
    assert Step(p, arg, default, priorityCount).0.libraries[index].path == arg;
  }

  // ---------------------------------------------------------------------
  // The state

  /** nestateT (the counters of its report are not part of this model). */
  class State {
    var flags: Flags
    var inputs: seq<NeInput>
    var libraries: seq<LibraryEntry>
    var inputPathMax: nat

    function Snapshot(current: NeInput): Parsing
      reads this
    {
      Parsing(flags, inputs, libraries, inputPathMax, current)
    }

    constructor (flags: Flags)
      ensures this.flags == flags && inputs == [] && libraries == [] && inputPathMax == 0
    {
      this.flags := flags;
      inputs, libraries, inputPathMax := [], [], 0;
    }

    /** i_parse_argument. */
    method ParseArgument(arg: string, current: NeInput, priorityCount: int) returns (v: Verdict, current': NeInput)
      modifies this
      ensures (v, flags, current') == Parse(arg, old(flags), current, priorityCount)
      ensures inputs == old(inputs) && libraries == old(libraries) && inputPathMax == old(inputPathMax)
    {
      current' := current;
      if arg == [] {
        return Consumed, current';
      } else if flags.alwaysFile {
        return Unconsumed, current';
      } else if flags.nextIsFile {
        flags := flags.(nextIsFile := false);
        return Unconsumed, current';
      } else if flags.nextIsLibrary {
        return Unconsumed, current';
      }
      v, current' := ApplyOption(ActionOf(arg), current, priorityCount);
    }

    /** The option part of i_parse_argument, once the table has named the
        option. */
    method ApplyOption(a: Action, current: NeInput, priorityCount: int) returns (v: Verdict, current': NeInput)
      modifies this
      ensures (v, flags, current') == Apply(a, old(flags), current, priorityCount)
      ensures inputs == old(inputs) && libraries == old(libraries) && inputPathMax == old(inputPathMax)
    {
      v, current' := Consumed, current;
      match a {
      case Help => v := HelpExit;
      case SetType(k) => current' := current.(kind := k);
      case ToggleInplaceRegrain => current' := current.(inplaceRegrain := !current.inplaceRegrain);
      case ToggleInplaceOgg => current' := current.(inplaceOgg := !current.inplaceOgg);
      case LibraryNext => flags := flags.(nextIsLibrary := true);
      case InlineCodebooks => current' := current.(libraryIndex := INLINE);
      case ToggleStripped => current' := current.(strippedHeaders := !current.strippedHeaders);
      case ToggleAutoOgg => current' := current.(autoOgg := !current.autoOgg);
      case ToggleBankRecurse => current' := current.(bankRecurse := !current.bankRecurse);
      case ToggleNextIsFile => flags := flags.(nextIsFile := !flags.nextIsFile);
      case ToggleAlwaysFile => flags := flags.(alwaysFile := !flags.alwaysFile);
      case ToggleDebug => current' := current.(logDebug := !current.logDebug);
      case ToggleColor => current' := current.(logColorEnabled := !current.logColorEnabled);
      case ToggleLogStyle => flags := flags.(logStyleEnabled := !flags.logStyleEnabled);
      case ToggleReportCard => flags := flags.(reportCard := !flags.reportCard);
      case ToggleFullReport => flags := flags.(fullReport := !flags.fullReport);
      case Quieter => current' := ModPriority(current, -1, priorityCount);
      case Louder => current' := ModPriority(current, 1, priorityCount);
      case ToggleLogging => current' := current.(logEnabled := !current.logEnabled);
      case ToggleDryRun => current' := current.(dryRun := !current.dryRun);
      case ToggleReset => flags := flags.(shouldReset := !flags.shouldReset);
      case NotAnOption => v := Unconsumed;
      }
    }

    /** i_add_library with the lookup it evidently means; library_index is
        left at the library found or appended. */
    method AddLibrary(arg: string, current: NeInput) returns (current': NeInput)
      modifies this
      ensures (libraries, current'.libraryIndex) == AddedLibrary(old(libraries), arg)
      ensures current' == current.(libraryIndex := current'.libraryIndex)
      ensures flags == old(flags) && inputs == old(inputs) && inputPathMax == old(inputPathMax)
    {
      var i := 0;
      while i < |libraries|
        invariant 0 <= i <= |libraries|
        invariant forall j :: 0 <= j < i ==> libraries[j].path != arg
      {
        if libraries[i].path == arg {
          return current.(libraryIndex := i);
        }
        i := i + 1;
      }
      var old' := CheckExtension(arg, false, ["ocbl"]);
      libraries := libraries + [LibraryEntry(arg, old' != -1)];
      return current.(libraryIndex := i);
    }

    /** i_add_input: the current options under the path `arg`. */
    method AddInput(arg: string, current: NeInput)
      modifies this
      ensures inputs == AddedInput(old(inputs), current.(path := arg))
      ensures inputPathMax == if arg in InputPaths(old(inputs)) then old(inputPathMax) else Widest(old(inputPathMax), arg)
      ensures flags == old(flags) && libraries == old(libraries)
    {
      var next := current.(path := arg);
      var i := 0;
      while i < |inputs|
        invariant 0 <= i <= |inputs|
        invariant forall j :: 0 <= j < i ==> inputs[j].path != arg
      {
        if inputs[i].path == arg {
          inputs := inputs[i := next];
          return;
        }
        i := i + 1;
      }
      inputs := inputs + [next];
      if |arg| > inputPathMax {
        inputPathMax := |arg|;
      }
    }

    /** One pass of the loop of neinput_take_inputs. */
    method TakeOne(arg: string, current: NeInput, default: NeInput, priorityCount: int) returns (current': NeInput, exited: bool)
      modifies this
      ensures (Snapshot(current'), exited) == Step(old(Snapshot(current)), arg, default, priorityCount)
    {
      var v;
      v, current' := ParseArgument(arg, current, priorityCount);
      if v == HelpExit {
        return current', true;
      }
      if v == Unconsumed {
        if flags.nextIsLibrary {
          current' := AddLibrary(arg, current');
          flags := flags.(nextIsLibrary := false);
        } else {
          AddInput(arg, current');
        }
        if flags.shouldReset {
          current' := default;
        }
      }
      return current', false;
    }

    /** neinput_take_inputs; `exited` says help ended the process. */
    method TakeInputs(default: NeInput, argv: seq<string>, priorityCount: int) returns (exited: bool)
      modifies this
      ensures Taken(old(Snapshot(default)), argv, default, priorityCount).1 == exited
      ensures Snapshot(default).(current := Taken(old(Snapshot(default)), argv, default, priorityCount).0.current)
        == Taken(old(Snapshot(default)), argv, default, priorityCount).0
    {
      var current := default;
      ghost var start := Snapshot(default);
      var i := 0;
      while i < |argv|
        invariant 0 <= i <= |argv|
        invariant (Snapshot(current), false) == Taken(start, argv[..i], default, priorityCount)
      {
        TakenOneMore(start, argv, i, default, priorityCount);
        current, exited := TakeOne(argv[i], current, default, priorityCount);
        if exited {
          TakenStopsAtHelp(start, argv, i + 1, default, priorityCount);
          return true;
        }
        i := i + 1;
      }
      assert argv[..i] == argv;
      return false;
    }
  }
}
