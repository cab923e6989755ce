/** main.c (the live `main`) and NeArg.c's NeFindArg: the command line of
    the oldest front end. Every argument is either an option, which
    changes the current option bits, or a file name, which is recorded
    with the current bits; a name given again takes the current bits
    instead of being added twice. Help exits the program. Names are the
    bytes of a C string (no NUL). */
module MainArgs {
  import opened Wrappers
  import opened Bytes
  import NS = NeStr

  /** struct NeArgOpt (main.c's copy): one bit each; `unused2` is never
      read or written and is left out. */
  datatype ArgOpt = ArgOpt(quiet: bool, wisp: bool, weem: bool, bank: bool, recurse: bool, ogg: bool, revorb: bool)

  /** The bits `main` starts from: all clear except `wisp`. */
  const DefaultOpt := ArgOpt(false, true, false, false, false, false, false)

  /** struct NeArg: a file name and the bits it is processed with. */
  datatype NeArg = NeArg(arg: seq<byte>, options: ArgOpt)

  /** The files are counted against this limit. */
  const MAXFILES: nat := 1024

  /** The bytes of an ASCII literal. */
  function Ascii(s: string): (b: seq<byte>)
    requires forall i :: 0 <= i < |s| ==> s[i] as int < 256
    ensures |b| == |s| && forall i :: 0 <= i < |s| ==> b[i] == s[i] as int
  {
    if s == [] then [] else [s[0] as int] + Ascii(s[1..])
  }

  // ---------------------------------------------------------------------
  // The option comparisons

  /** The NULL-terminated spellings passed to NeStrCmp. */
  const HelpNames: seq<NS.Arg> := [Some(Ascii("-v")), Some(Ascii("-version")), Some(Ascii("--version")),
    Some(Ascii("-h")), Some(Ascii("-help")), Some(Ascii("--help")), None]
  const QuietNames: seq<NS.Arg> := [Some(Ascii("-q")), Some(Ascii("-quiet")), None]
  const WispNames: seq<NS.Arg> := [Some(Ascii("-W")), Some(Ascii("-wisp")), None]
  const WeemNames: seq<NS.Arg> := [Some(Ascii("-w")), Some(Ascii("-weem")), None]
  const BankNames: seq<NS.Arg> := [Some(Ascii("-b")), Some(Ascii("-bank")), None]
  const RecurseNames: seq<NS.Arg> := [Some(Ascii("-R")), Some(Ascii("-recurse")), None]
  const OggNames: seq<NS.Arg> := [Some(Ascii("-o")), Some(Ascii("-ogg")), None]
  const RevorbNames: seq<NS.Arg> := [Some(Ascii("-r")), Some(Ascii("-revorb")), None]

  /** What an argument is taken for. */
  datatype MainAction = Help | Quiet | Wisp | Weem | Bank | Recurse | Ogg | Revorb | File

  /** The chain of NeStrCmp tests: help ignores case (a non-zero `cse`),
      every other option is compared exactly. */
  function ActionOf(arg: seq<byte>): MainAction {
    if NS.Listed(arg, true, HelpNames) then Help
    else if NS.Listed(arg, false, QuietNames) then Quiet
    else if NS.Listed(arg, false, WispNames) then Wisp
    else if NS.Listed(arg, false, WeemNames) then Weem
    else if NS.Listed(arg, false, BankNames) then Bank
    else if NS.Listed(arg, false, RecurseNames) then Recurse
    else if NS.Listed(arg, false, OggNames) then Ogg
    else if NS.Listed(arg, false, RevorbNames) then Revorb
    else File
  }

  /** Every spelling list ends in NULL. */
  lemma NamesTerminated()
    ensures NS.Terminated(HelpNames) && NS.Terminated(QuietNames) && NS.Terminated(WispNames)
    ensures NS.Terminated(WeemNames) && NS.Terminated(BankNames) && NS.Terminated(RecurseNames)
    ensures NS.Terminated(OggNames) && NS.Terminated(RevorbNames)
  {
    assert NS.Stops(HelpNames[6]);
    assert NS.Stops(QuietNames[2]) && NS.Stops(WispNames[2]) && NS.Stops(WeemNames[2]) && NS.Stops(BankNames[2]);
    assert NS.Stops(RecurseNames[2]) && NS.Stops(OggNames[2]) && NS.Stops(RevorbNames[2]);
  }

  /** The comparisons of the loop body, each one a call of NeStrCmp. */
  method Classify(arg: seq<byte>) returns (a: MainAction)
    ensures a == ActionOf(arg)
  {
    NamesTerminated();
    var hit := NS.StrCmp(arg, 1, HelpNames);
    if hit == 1 { return Help; }
    hit := NS.StrCmp(arg, 0, QuietNames);
    if hit == 1 { return Quiet; }
    hit := NS.StrCmp(arg, 0, WispNames);
    if hit == 1 { return Wisp; }
    hit := NS.StrCmp(arg, 0, WeemNames);
    if hit == 1 { return Weem; }
    hit := NS.StrCmp(arg, 0, BankNames);
    if hit == 1 { return Bank; }
    hit := NS.StrCmp(arg, 0, RecurseNames);
    if hit == 1 { return Recurse; }
    hit := NS.StrCmp(arg, 0, OggNames);
    if hit == 1 { return Ogg; }
    hit := NS.StrCmp(arg, 0, RevorbNames);
    if hit == 1 { return Revorb; }
    return File;
  }

  /** The option bits after an option. */
  function OptAfter(a: MainAction, opt: ArgOpt): ArgOpt {
    match a
    case Quiet => opt.(quiet := !opt.quiet)
    case Wisp => opt.(wisp := true, weem := false, bank := false)
    case Weem => opt.(wisp := false, weem := true, bank := false)
    case Bank => opt.(wisp := false, weem := false, bank := true)
    case Recurse => opt.(recurse := !opt.recurse)
    case Ogg => opt.(ogg := !opt.ogg)
    case Revorb => opt.(revorb := !opt.revorb)
    case _ => opt
  }

  /** Exactly one of the three type bits is set. */
  predicate OneType(o: ArgOpt) {
    (if o.wisp then 1 else 0) + (if o.weem then 1 else 0) + (if o.bank then 1 else 0) == 1
  }

  /** The type options leave exactly their own type set and touch no other
      bit; the default is a wisp. */
  lemma TypeOptionsLeaveOne(opt: ArgOpt)
    ensures OneType(DefaultOpt) && DefaultOpt.wisp
    ensures OneType(OptAfter(Wisp, opt)) && OptAfter(Wisp, opt).wisp
    ensures OneType(OptAfter(Weem, opt)) && OptAfter(Weem, opt).weem
    ensures OneType(OptAfter(Bank, opt)) && OptAfter(Bank, opt).bank
    ensures forall a :: a in {Wisp, Weem, Bank} ==>
      OptAfter(a, opt).(wisp := opt.wisp, weem := opt.weem, bank := opt.bank) == opt
  {
  }

  /** The flag options flip their own bit, touch no other, and keep the
      type; giving one twice restores the bits. */
  lemma TogglesFlipOwnBit(a: MainAction, opt: ArgOpt)
    requires a in {Quiet, Recurse, Ogg, Revorb}
    ensures var r := OptAfter(a, opt);
      && (a == Quiet ==> r == opt.(quiet := !opt.quiet))
      && (a == Recurse ==> r == opt.(recurse := !opt.recurse))
      && (a == Ogg ==> r == opt.(ogg := !opt.ogg))
      && (a == Revorb ==> r == opt.(revorb := !opt.revorb))
      && OptAfter(a, r) == opt
      && (OneType(opt) ==> OneType(r))
  {
  }

  // ---------------------------------------------------------------------
  // getargbyarg and NeFindArg

  /** NeStrCmp(arg, 0, name, NULL): an exact match, except that an empty
      name ends the list and never matches. */
  lemma ListedAlone(arg: seq<byte>, name: seq<byte>)
    ensures NS.Terminated([Some(name), None])
    ensures NS.Listed(arg, false, [Some(name), None]) <==> name != [] && arg == name
  {
    var l: seq<NS.Arg> := [Some(name), None];
    assert NS.Stops(l[1]);
    if name != [] && arg == name {
      assert NS.Reached(l, 0);
    }
  }

  /** The first entry whose name is `arg`, skipping empty names. */
  function FoundArg(list: seq<NeArg>, arg: seq<byte>): (r: Option<nat>)
    ensures r.Some? ==> (r.value < |list| && list[r.value].arg == arg && arg != []
      && forall j :: 0 <= j < r.value ==> list[j].arg != arg)
    ensures r.None? <==> (arg == [] || forall j :: 0 <= j < |list| ==> list[j].arg != arg)
  {
    if list == [] then None
    else if list[0].arg != [] && list[0].arg == arg then Some(0)
    else match FoundArg(list[1..], arg)
      case None =>
        assert forall j :: 1 <= j < |list| ==> list[j] == list[1..][j - 1];
        None
      case Some(k) => Some(k + 1)
  }

  /** getargbyarg (and NeFindArg, its copy): the index of the first entry
      whose name equals `arg`, compared with NeStrCmp. */
  method FindArg(list: seq<NeArg>, arg: seq<byte>) returns (r: Option<nat>)
    ensures r == FoundArg(list, arg)
  {
    var i := 0;
    while i < |list|
      invariant 0 <= i <= |list|
      invariant forall j :: 0 <= j < i ==> !(list[j].arg != [] && list[j].arg == arg)
    {
      ListedAlone(arg, list[i].arg);
      var hit := NS.StrCmp(arg, 0, [Some(list[i].arg), None]);
      if hit == 1 {
        return Some(i);
      }
      i := i + 1;
    }
    return None;
  }

  // ---------------------------------------------------------------------
  // The argument loop

  /** What `main` holds while it reads arguments. */
  datatype Args = Args(opt: ArgOpt, list: seq<NeArg>, maxarg: nat)

  const Start := Args(DefaultOpt, [], 0)

  /** How an argument ends: on to the next, help (which exits), or too
      many files (which breaks out of the loop). */
  datatype Outcome = Continue | HelpExit | TooMany

  /** One iteration of the loop. */
  function Step(s: Args, arg: seq<byte>): (r: (Args, Outcome))
    ensures r.1 == HelpExit <==> ActionOf(arg) == Help
    ensures r.1 == TooMany ==> r.0 == s && |s.list| > MAXFILES
    ensures |s.list| <= |r.0.list| <= |s.list| + 1 && r.0.maxarg >= s.maxarg
    ensures |s.list| <= MAXFILES + 1 ==> |r.0.list| <= MAXFILES + 1
  {
    SteppedBounds(s, arg, ActionOf(arg));
    Stepped(s, arg, ActionOf(arg))
  }

  lemma SteppedBounds(s: Args, arg: seq<byte>, a: MainAction)
    ensures var r := Stepped(s, arg, a);
      && (r.1 == HelpExit <==> a == Help)
      && (r.1 == TooMany ==> r.0 == s && |s.list| > MAXFILES)
      && |s.list| <= |r.0.list| <= |s.list| + 1 && r.0.maxarg >= s.maxarg
      && (|s.list| <= MAXFILES + 1 ==> |r.0.list| <= MAXFILES + 1)
  {
  }

  /** One iteration of the loop, for an argument taken as `a`. */
  function Stepped(s: Args, arg: seq<byte>, a: MainAction): (Args, Outcome) {
    if a == Help then (s, HelpExit)
    else if a != File then (s.(opt := OptAfter(a, s.opt)), Continue)
    else match FoundArg(s.list, arg)
      case Some(k) => (s.(list := s.list[k := s.list[k].(options := s.opt)]), Continue)
      case None =>
        if |s.list| > MAXFILES then (s, TooMany)
        else (Args(s.opt, s.list + [NeArg(arg, s.opt)], if |arg| > s.maxarg then |arg| else s.maxarg), Continue)
  }

  /** The loop over `args`, stopping at the first argument that does not
      continue. */
  function Taken(s: Args, args: seq<seq<byte>>): (r: (Args, Outcome))
    ensures |s.list| <= |r.0.list| <= |s.list| + |args| && r.0.maxarg >= s.maxarg
    ensures |s.list| <= MAXFILES + 1 ==> |r.0.list| <= MAXFILES + 1
    ensures r.1 == TooMany ==> |r.0.list| > MAXFILES
    decreases |args|
  {
    if args == [] then (s, Continue)
    else
      var prev := Taken(s, args[..|args| - 1]);
      if prev.1 != Continue then prev else Step(prev.0, args[|args| - 1])
  }

  /** Whether `main` ends in the help text: no arguments at all, a help
      option, or no file once the loop is over and quiet is off. */
  function Helps(s: Args, args: seq<seq<byte>>): (h: bool)
    ensures args == [] ==> h
    ensures args != [] && ActionOf(args[0]) == Help ==> h
    ensures h && args != [] ==> Taken(s, args).1 == HelpExit || |Taken(s, args).0.list| == 0
  {
    if args == [] then true
    else
      var r := Taken(s, args);
      HelpFirstStops(s, args);
      r.1 == HelpExit || (|r.0.list| == 0 && !r.0.opt.quiet)
  }

  /** Help as the first argument ends the loop there. */
  lemma HelpFirstStops(s: Args, args: seq<seq<byte>>)
    requires args != []
    ensures ActionOf(args[0]) == Help ==> Taken(s, args).1 == HelpExit
  {
    if ActionOf(args[0]) == Help {
      assert args[..1][..0] == [];
      TakenStops(s, args, 1);
    }
  }

  lemma TakenOneMore(s: Args, args: seq<seq<byte>>, i: nat)
    requires i < |args| && Taken(s, args[..i]).1 == Continue
    ensures Taken(s, args[..i + 1]) == Step(Taken(s, args[..i]).0, args[i])
  {
    assert args[..i + 1][..i] == args[..i];
  }

  /** Once an argument stops the loop, later ones change nothing. */
  lemma {:induction false} TakenStops(s: Args, args: seq<seq<byte>>, k: nat)
    requires k <= |args| && Taken(s, args[..k]).1 != Continue
    ensures Taken(s, args) == Taken(s, args[..k])
    decreases |args| - k
  {
    if k < |args| {
      var next := args[..k + 1];
      assert next[..k] == args[..k];
      assert Taken(s, next) == Taken(s, args[..k]);
      TakenStops(s, args, k + 1);
    } else {
      assert args[..k] == args;
    }
  }

  /** A name already recorded takes the current bits and nothing is added;
      a new one is appended with them, and maxarg grows to its length. */
  lemma FileArgument(s: Args, arg: seq<byte>)
    ensures var r := Stepped(s, arg, File);
      match FoundArg(s.list, arg)
      case Some(k) =>
        && r.1 == Continue && |r.0.list| == |s.list| && r.0.list[k] == NeArg(arg, s.opt)
        && (forall j :: 0 <= j < |s.list| && j != k ==> r.0.list[j] == s.list[j])
        && r.0.opt == s.opt && r.0.maxarg == s.maxarg
      case None =>
        && (|s.list| <= MAXFILES ==> r == (Args(s.opt, s.list + [NeArg(arg, s.opt)],
          if |arg| > s.maxarg then |arg| else s.maxarg), Continue))
        && (|s.list| > MAXFILES ==> r == (s, TooMany))
  {
  }

  /** The bits `main` holds and every recorded file's bits name exactly one
      type; names are distinct, apart from empty ones; maxarg is the
      longest name. */
  predicate Wf(s: Args) {
    && OneType(s.opt)
    && TypesOk(s.list)
    && NamesDistinct(s.list)
    && Widest(s.list, s.maxarg)
  }

  predicate TypesOk(list: seq<NeArg>) {
    forall i :: 0 <= i < |list| ==> OneType(list[i].options)
  }

  predicate NamesDistinct(list: seq<NeArg>) {
    forall i, j :: 0 <= i < j < |list| && list[i].arg != [] ==> list[i].arg != list[j].arg
  }

  /** maxarg is the length of the longest name (0 for none). */
  predicate Widest(list: seq<NeArg>, maxarg: nat) {
    && (forall i :: 0 <= i < |list| ==> |list[i].arg| <= maxarg)
    && (maxarg > 0 ==> exists i :: 0 <= i < |list| && |list[i].arg| == maxarg)
  }

  lemma StepKeepsWf(s: Args, arg: seq<byte>, a: MainAction)
    requires Wf(s)
    ensures Wf(Stepped(s, arg, a).0)
  {
    if a != Help && a != File {
      TogglesOrTypes(a, s.opt);
      assert Stepped(s, arg, a).0 == s.(opt := OptAfter(a, s.opt));
    } else if a == File {
      match FoundArg(s.list, arg)
      case Some(k) =>
        ReplacedKeepsWf(s, k);
      case None =>
        if |s.list| <= MAXFILES {
          AppendedKeepsWf(s, arg);
        }
    }
  }

  lemma ReplacedKeepsWf(s: Args, k: nat)
    requires Wf(s) && k < |s.list|
    ensures Wf(s.(list := s.list[k := s.list[k].(options := s.opt)]))
  {
    var l := s.list[k := s.list[k].(options := s.opt)];
    assert forall i :: 0 <= i < |s.list| ==> l[i].arg == s.list[i].arg;
    assert TypesOk(l);
    assert NamesDistinct(l);
    if s.maxarg > 0 {
      var i :| 0 <= i < |s.list| && |s.list[i].arg| == s.maxarg;
      assert |l[i].arg| == s.maxarg;
    }
  }

  lemma AppendedKeepsWf(s: Args, arg: seq<byte>)
    requires Wf(s) && FoundArg(s.list, arg).None?
    ensures Wf(Args(s.opt, s.list + [NeArg(arg, s.opt)], if |arg| > s.maxarg then |arg| else s.maxarg))
  {
    var l := s.list + [NeArg(arg, s.opt)];
    var n := |s.list|;
    assert TypesOk(l) by {
      assert forall i :: 0 <= i < n ==> l[i] == s.list[i];
    }
    assert NamesDistinct(l) by {
      forall i, j | 0 <= i < j < |l| && l[i].arg != []
        ensures l[i].arg != l[j].arg
      {
        assert l[i] == s.list[i];
        if j < n {
          assert l[j] == s.list[j];
        }
      }
    }
    WidestAppended(s.list, s.maxarg, NeArg(arg, s.opt));
  }

  lemma WidestAppended(list: seq<NeArg>, maxarg: nat, e: NeArg)
    requires Widest(list, maxarg)
    ensures Widest(list + [e], if |e.arg| > maxarg then |e.arg| else maxarg)
  {
    var l := list + [e];
    var m := if |e.arg| > maxarg then |e.arg| else maxarg;
    assert forall i :: 0 <= i < |list| ==> l[i] == list[i];
    assert l[|list|] == e;
    if m > 0 {
      if |e.arg| > maxarg {
        assert |l[|list|].arg| == m;
      } else {
        var i :| 0 <= i < |list| && |list[i].arg| == maxarg;
        assert |l[i].arg| == m;
      }
    }
  }

  lemma TogglesOrTypes(a: MainAction, opt: ArgOpt)
    requires a != Help && a != File && OneType(opt)
    ensures OneType(OptAfter(a, opt))
  {
  }

  /** The loop keeps Wf from the start. */
  lemma {:induction false} TakenKeepsWf(s: Args, args: seq<seq<byte>>)
    requires Wf(s)
    ensures Wf(Taken(s, args).0)
    decreases |args|
  {
    if args != [] {
      var init := args[..|args| - 1];
      TakenKeepsWf(s, init);
      if Taken(s, init).1 == Continue {
        StepKeepsWf(Taken(s, init).0, args[|args| - 1], ActionOf(args[|args| - 1]));
      }
    }
  }

  /** As written, the limit test comes before the append and looks for
      more than MAXFILES entries, so a list of MAXFILES entries still
      takes one more: the list can reach MAXFILES + 1 files, and no more. */
  lemma {:induction false} TakenHoldsOneTooMany(s: Args, args: seq<seq<byte>>)
    requires |s.list| <= MAXFILES + 1
    ensures |Taken(s, args).0.list| <= MAXFILES + 1
    decreases |args|
  {
    if args != [] {
      var init := args[..|args| - 1];
      TakenHoldsOneTooMany(s, init);
      if Taken(s, init).1 == Continue {
        SteppedGrowsByOne(Taken(s, init).0, args[|args| - 1], ActionOf(args[|args| - 1]));
      }
    }
  }

  lemma SteppedGrowsByOne(s: Args, arg: seq<byte>, a: MainAction)
    requires |s.list| <= MAXFILES + 1
    ensures |Stepped(s, arg, a).0.list| <= MAXFILES + 1
  {
  }

  /** A new name reaching a list of MAXFILES files is appended. */
  lemma ListReachesOneTooMany(s: Args, arg: seq<byte>)
    requires |s.list| == MAXFILES && FoundArg(s.list, arg).None?
    ensures |Stepped(s, arg, File).0.list| == MAXFILES + 1 && Stepped(s, arg, File).1 == Continue
  {
  }

  /** The loop body with the limit test the constant's name calls for: a
      full list of MAXFILES files stops the loop. */
  function StepIntended(s: Args, arg: seq<byte>, a: MainAction): (Args, Outcome) {
    if a == File && FoundArg(s.list, arg).None? && |s.list| >= MAXFILES then (s, TooMany)
    else Stepped(s, arg, a)
  }

  /** With the intended test the list never exceeds MAXFILES, and the two
      versions agree until it is full. */
  lemma StepIntendedBounded(s: Args, arg: seq<byte>, a: MainAction)
    requires |s.list| <= MAXFILES
    ensures |StepIntended(s, arg, a).0.list| <= MAXFILES
    ensures |s.list| < MAXFILES ==> StepIntended(s, arg, a) == Stepped(s, arg, a)
  {
  }

  /** `main`'s state, which its loop changes. */
  class CommandLine {
    var opt: ArgOpt
    var list: seq<NeArg>
    var maxarg: nat

    function Snapshot(): Args
      reads this
    {
      Args(opt, list, maxarg)
    }

    constructor()
      ensures Snapshot() == Start
    {
      opt := DefaultOpt;
      list := [];
      maxarg := 0;
    }

    /** One iteration of the loop. */
    method TakeOne(arg: seq<byte>) returns (o: Outcome)
      modifies this
      ensures (Snapshot(), o) == Step(old(Snapshot()), arg)
    {
      var a := Classify(arg);
      o := Apply(a, arg);
    }

    /** The loop body for an argument taken as `a`. */
    method Apply(a: MainAction, arg: seq<byte>) returns (o: Outcome)
      modifies this
      ensures (Snapshot(), o) == Stepped(old(Snapshot()), arg, a)
    {
      if a == Help {
        return HelpExit;
      } else if a != File {
        opt := OptAfter(a, opt);
        return Continue;
      }
      var t := FindArg(list, arg);
      if t.Some? {
        list := list[t.value := list[t.value].(options := opt)];
        return Continue;
      }
      if |list| > MAXFILES {
        return TooMany;
      }
      if |arg| > maxarg {
        maxarg := |arg|;
      }
      list := list + [NeArg(arg, opt)];
      o := Continue;
    }

    /** The argument handling of `main` (argv without the program name):
        `helped` tells that the help text was printed, which exits. */
    method Run(args: seq<seq<byte>>) returns (helped: bool)
      modifies this
      ensures helped == Helps(old(Snapshot()), args)
      ensures args != [] ==> Snapshot() == Taken(old(Snapshot()), args).0
      ensures args == [] ==> Snapshot() == old(Snapshot())
    {
      if args == [] {
        return true;
      }
      ghost var s := Snapshot();
      var i := 0;
      var o := Continue;
      while i < |args| && o == Continue
        invariant 0 <= i <= |args|
        invariant (Snapshot(), o) == Taken(s, args[..i])
      {
        TakenOneMore(s, args, i);
        o := TakeOne(args[i]);
        i := i + 1;
      }
      if i < |args| {
        TakenStops(s, args, i);
      } else {
        assert args[..i] == args;
      }
      helped := o == HelpExit || (|list| == 0 && !opt.quiet);
    }
  }

  // ---------------------------------------------------------------------
  // After the loop: getoptstr and the per-file dispatch

  datatype Kind = WispKind | WeemKind | BankKind | NoKind

  /** getoptstr: the name of the first set bit, wisp before weem before
      bank. */
  function OptName(o: ArgOpt): (n: string)
    ensures o.wisp ==> n == "Wisp"
    ensures !o.wisp && o.weem ==> n == "Weem"
    ensures !o.wisp && !o.weem && o.bank ==> n == "Bank"
    ensures !o.wisp && !o.weem && !o.bank ==> n == "UNKNOWN"
  {
    if o.wisp then "Wisp" else if o.weem then "Weem" else if o.bank then "Bank" else "UNKNOWN"
  }

  /** What the loop over the recorded files does with one: it tests weem
      before wisp before bank. */
  function Dispatched(o: ArgOpt): Kind {
    if o.weem then WeemKind else if o.wisp then WispKind else if o.bank then BankKind else NoKind
  }

  function KindName(k: Kind): string {
    match k
    case WispKind => "Wisp"
    case WeemKind => "Weem"
    case BankKind => "Bank"
    case NoKind => "UNKNOWN"
  }

  /** The two orders disagree only when several type bits are set; with
      exactly one, which the loop keeps, the printed name is the kind the
      file is handled as, and never "UNKNOWN". */
  lemma OneTypeNamesItsKind(o: ArgOpt)
    ensures OneType(o) ==> OptName(o) == KindName(Dispatched(o)) && Dispatched(o) != NoKind
    ensures o.wisp && o.weem ==> OptName(o) == "Wisp" && Dispatched(o) == WeemKind
  {
  }

  /** Every file `main` records is handled as a wisp, weem or bank. */
  lemma RecordedFilesHaveKind(args: seq<seq<byte>>, i: nat)
    requires i < |Taken(Start, args).0.list|
    ensures var o := Taken(Start, args).0.list[i].options;
      Dispatched(o) != NoKind && OptName(o) == KindName(Dispatched(o))
  {
    TypeOptionsLeaveOne(DefaultOpt);
    TakenKeepsWf(Start, args);
    OneTypeNamesItsKind(Taken(Start, args).0.list[i].options);
  }
}
