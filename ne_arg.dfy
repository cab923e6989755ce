/** NeArg.c's NeDetectType: guessing a file's type from its first four
    bytes and its name. The option bits of an argument are set in place;
    a recognised fourcc only sets a bit, an unknown one clears the four
    type bits, and a failed read clears every option. Reading the fourcc is
    I/O and arrives as a parameter. (NeFindArg, the other search of this
    file, is the same loop as main.c's getargbyarg: MainArgs.FindArg.) */
module NeArgDetect {
  import opened Bytes

  /** The four type bits of an argument's options. */
  datatype TypeBits = TypeBits(wisp: bool, weem: bool, bank: bool, oggs: bool)

  /** The other options NeArg.c reads, which NeDetectType only ever clears
      all together. */
  datatype OtherOpt = OtherOpt(logColor: bool, logOff: bool, logDebug: bool, dryRun: bool, bankRecurse: bool,
    autoOgg: bool, oggInplace: bool, autoRvb: bool, rvbInplace: bool, logLevel: nat)

  /** The option bits of an argument as NeArg.c uses them. */
  datatype DetectOpt = DetectOpt(types: TypeBits, rest: OtherOpt)

  const NoTypes := TypeBits(false, false, false, false)

  /** `options = 0`. */
  const NoOptions := DetectOpt(NoTypes, OtherOpt(false, false, false, false, false, false, false, false, false, 0))

  /** What reading the first four bytes gave. */
  datatype FccRead = ReadError | Fcc(bytes: seq<byte>)

  const RiffMagic: seq<byte> := [0x52, 0x49, 0x46, 0x46]  // "RIFF", a weem or a wisp
  const BankMagic: seq<byte> := [0x42, 0x4B, 0x48, 0x44]  // "BKHD"
  const OggMagic: seq<byte> := [0x4F, 0x67, 0x67, 0x53]   // "OggS"

  const WspSuffix: seq<byte> := [0x2E, 0x77, 0x73, 0x70]  // ".wsp"
  const WemSuffix: seq<byte> := [0x2E, 0x77, 0x65, 0x6D]  // ".wem"

  predicate EndsWith(s: seq<byte>, suffix: seq<byte>) {
    |suffix| <= |s| && s[|s| - |suffix|..] == suffix
  }

  /** The option bits after NeDetectType on a file named `path`. */
  function Detected(o: DetectOpt, read: FccRead, path: seq<byte>): DetectOpt {
    match read
    case ReadError => NoOptions
    case Fcc(fcc) =>
      if fcc == RiffMagic then
        if EndsWith(path, WspSuffix) then o.(types := o.types.(wisp := true))
        else if EndsWith(path, WemSuffix) then o.(types := o.types.(weem := true))
        else o.(types := o.types.(wisp := true))
      else if fcc == BankMagic then o.(types := o.types.(bank := true))
      else if fcc == OggMagic then o.(types := o.types.(oggs := true))
      else o.(types := NoTypes)
  }

  /** An argument and its option bits, which NeDetectType updates. */
  class DetectedArg {
    var arg: seq<byte>
    var opt: DetectOpt

    constructor(arg: seq<byte>, opt: DetectOpt)
      ensures this.arg == arg && this.opt == opt
    {
      this.arg := arg;
      this.opt := opt;
    }
  }

  /** NeDetectType. */
  method DetectType(a: DetectedArg, read: FccRead, path: seq<byte>)
    modifies a
    ensures a.opt == Detected(old(a.opt), read, path) && a.arg == old(a.arg)
  {
    if read.Fcc? {
      var fcc := read.bytes;
      if fcc == RiffMagic {
        if EndsWith(path, WspSuffix) {
          a.opt := a.opt.(types := a.opt.types.(wisp := true));
        } else if EndsWith(path, WemSuffix) {
          a.opt := a.opt.(types := a.opt.types.(weem := true));
        } else {
          a.opt := a.opt.(types := a.opt.types.(wisp := true));
        }
      } else if fcc == BankMagic {
        a.opt := a.opt.(types := a.opt.types.(bank := true));
      } else if fcc == OggMagic {
        a.opt := a.opt.(types := a.opt.types.(oggs := true));
      } else {
        a.opt := a.opt.(types := NoTypes);
      }
    } else {
      a.opt := NoOptions;
    }
  }

  /** A RIFF file is a weem only when its name ends in ".wem"; anything
      else, ".wsp" or not, is taken for a wisp, since a wisp holds weems.
      Only that bit is set; the rest of the options stay. */
  lemma RiffChoosesByName(o: DetectOpt, path: seq<byte>)
    ensures var r := Detected(o, Fcc(RiffMagic), path);
      && (EndsWith(path, WemSuffix) ==> r == o.(types := o.types.(weem := true)))
      && (!EndsWith(path, WemSuffix) ==> r == o.(types := o.types.(wisp := true)))
  {
    if EndsWith(path, WemSuffix) {
      assert path[|path| - 4..][2] == 0x65;
      assert !EndsWith(path, WspSuffix);
    }
  }

  /** A bank or an Ogg file sets its own bit and nothing else. */
  lemma BankAndOggSetTheirBit(o: DetectOpt, path: seq<byte>)
    ensures Detected(o, Fcc(BankMagic), path) == o.(types := o.types.(bank := true))
    ensures Detected(o, Fcc(OggMagic), path) == o.(types := o.types.(oggs := true))
  {
  }

  /** Any other fourcc leaves no type bit set and keeps the other options;
      a failed read clears everything. */
  lemma UnknownClearsTypes(o: DetectOpt, fcc: seq<byte>, path: seq<byte>)
    requires fcc != RiffMagic && fcc != BankMagic && fcc != OggMagic
    ensures var r := Detected(o, Fcc(fcc), path);
      && !r.types.wisp && !r.types.weem && !r.types.bank && !r.types.oggs
      && r.rest == o.rest
    ensures Detected(o, ReadError, path) == NoOptions
  {
  }

  /** A recognised fourcc never clears a type bit set before, so a file
      already marked as a bank that turns out to be a RIFF ".wem" ends
      with both the bank and the weem bit. */
  lemma RecognisedTypeAccumulates(o: DetectOpt, fcc: seq<byte>, path: seq<byte>)
    requires fcc == RiffMagic || fcc == BankMagic || fcc == OggMagic
    ensures var t := o.types;
      var r := Detected(o, Fcc(fcc), path).types;
      && (t.wisp ==> r.wisp) && (t.weem ==> r.weem) && (t.bank ==> r.bank) && (t.oggs ==> r.oggs)
      && (r.wisp || r.weem || r.bank || r.oggs)
      && Detected(o, Fcc(fcc), path).rest == o.rest
  {
  }

  /** Detecting twice gives what detecting once gave. */
  lemma DetectionIdempotent(o: DetectOpt, read: FccRead, path: seq<byte>)
    ensures Detected(Detected(o, read, path), read, path) == Detected(o, read, path)
  {
  }
}
