/** nepath.c: a path as given on the command line (its characters and the
    length nepath_init measured, at most BRRPATH_MAX_PATH), its extension,
    comparing that extension with a list of candidates, and building the
    path with another extension. Stat-ing and reading the file are I/O and
    not part of this model. */
module NePathModel {
  import opened Wrappers
  import opened LibUtil

  /** nepath_t without the stat result: `cstr` is null or the characters of
      a C string, `length` at most their number. */
  datatype NePath = NePath(cstr: Option<string>, length: nat)

  predicate PathValid(p: NePath) {
    p.cstr.Some? ==> CText(p.cstr.value) && p.length <= |p.cstr.value|
  }

  /** What stat-ing a path found: nothing (the call failed), or whether it
      names a regular file. */
  datatype Stat = StatFailed | Statted(isFile: bool)

  /** nepath_init on a command-line argument: the argument's characters,
      counted up to `maxPath` (BRRPATH_MAX_PATH); a failed stat is the
      error -1, here None. */
  function Init(arg: string, stat: Stat, maxPath: nat): (r: Option<NePath>)
    ensures r.None? <==> stat.StatFailed?
    ensures r.Some? ==> (r.value.cstr == Some(arg) && r.value.length <= maxPath
      && (|arg| <= maxPath ==> r.value.length == |arg|))
  {
    if stat.StatFailed? then None
    else Some(NePath(Some(arg), Measured(arg, maxPath)))
  }

  /** brrstringr_length: the length of `arg`, counted no further than
      `maxPath`. */
  function Measured(arg: string, maxPath: nat): nat {
    if |arg| <= maxPath then |arg| else maxPath
  }

  /** An argument's path is valid: its measured length never runs past its
      characters. */
  lemma InitValid(arg: string, stat: Stat, maxPath: nat)
    requires CText(arg) && stat.Statted?
    ensures PathValid(Init(arg, stat, maxPath).value)
    ensures Init(arg, stat, maxPath).value.length <= |arg|
  {
  }

  /** The loop of i_ext_index, from position i down: the index of the dot
      it stops at, or `length` when it meets a separator or the start
      first. */
  function ExtScan(s: string, i: nat, length: nat): (r: nat)
    requires i <= length <= |s|
    ensures r == length || (r < i && s[r] == '.')
    ensures r < length ==> forall j :: r < j < i ==> s[j] != '.' && s[j] != SEP
    ensures r == length ==> forall j :: 0 <= j < i && s[j] == '.' ==> exists k :: j < k < i && s[k] == SEP
  {
    if i == 0 then length
    else if s[i - 1] == '.' then i - 1
    else if s[i - 1] == SEP then length
    else ExtScan(s, i - 1, length)
  }

  /** Where the extension of the first `length` characters starts: the
      last dot of the last component (possibly its first character), or
      `length` when that component has no dot. */
  function ExtIndexOf(s: string, length: nat): (r: nat)
    requires length <= |s|
    ensures r <= length
  {
    ExtScan(s, length, length)
  }

  /** i_ext_index. */
  method ExtIndex(s: string, length: nat) returns (r: nat)
    requires length <= |s|
    ensures r == ExtIndexOf(s, length)
  {
    var i: nat := length;
    while i > 0
      invariant i <= length
      invariant ExtScan(s, i, length) == ExtScan(s, length, length)
    {
      var c := s[i - 1];
      if c == '.' {
        return i - 1;
      }
      if c == SEP {
        break;
      }
      i := i - 1;
    }
    return length;
  }

  /** The last candidate equal to `ext`, -1 when there is none. */
  function LastMatch(candidates: seq<string>, ext: string): (idx: int)
    ensures -1 <= idx < |candidates|
    ensures idx == -1 <==> ext !in candidates
    ensures idx >= 0 ==> candidates[idx] == ext && forall j :: idx < j < |candidates| ==> candidates[j] != ext
  {
    if candidates == [] then -1
    else if candidates[|candidates| - 1] == ext then |candidates| - 1
    else LastMatch(candidates[..|candidates| - 1], ext)
  }

  /** The first candidate equal to `ext`, -1 when there is none: what
      nepath.h documents. */
  function FirstMatch(candidates: seq<string>, ext: string): (idx: int)
    ensures -1 <= idx < |candidates|
    ensures idx == -1 <==> ext !in candidates
    ensures idx >= 0 ==> candidates[idx] == ext && forall j :: 0 <= j < idx ==> candidates[j] != ext
  {
    if candidates == [] then -1
    else if candidates[0] == ext then 0
    else
      var r := FirstMatch(candidates[1..], ext);
      if r == -1 then -1 else r + 1
  }

  /** The place `match` points at: which candidate, or NULL. */
  class MatchOut {
    var value: Option<nat>

    constructor ()
      ensures value == None
    {
      value := None;
    }
  }

  /** What nepath_extension_cmp answers: -1 for a null path or one without
      an extension, otherwise the last candidate equal to the extension
      (dot included), or -1. */
  function ExtensionCmpResult(path: NePath, candidates: seq<string>): (idx: int)
    requires PathValid(path)
    ensures -1 <= idx < |candidates|
  {
    if path.cstr.None? then -1
    else
      var dot := ExtIndexOf(path.cstr.value, path.length);
      if dot == path.length then -1
      else LastMatch(candidates, path.cstr.value[dot..])
  }

  /** nepath_extension_cmp; the NULL-terminated candidate list is
      `candidates`, and `found` (`match` in C) is null or the place to store the match in. */
  method ExtensionCmp(path: NePath, found: MatchOut?, candidates: seq<string>) returns (idx: int)
    requires PathValid(path)
    modifies found
    ensures idx == ExtensionCmpResult(path, candidates)
    ensures found != null && path.cstr.Some? && ExtIndexOf(path.cstr.value, path.length) < path.length ==>
      found.value == (if idx == -1 then None else Some(idx))
    ensures found != null && (path.cstr.None? || ExtIndexOf(path.cstr.value, path.length) == path.length) ==>
      found.value == old(found.value)
  {
    if path.cstr.None? {
      return -1;
    }
    var dot := ExtIndex(path.cstr.value, path.length);
    if dot == path.length {
      return -1;
    }
    var extension := path.cstr.value[dot..];
    idx := -1;
    var i := 0;
    while i < |candidates|
      invariant i <= |candidates|
      invariant idx == LastMatch(candidates[..i], extension)
      invariant found != null && idx != -1 ==> found.value == Some(idx)
    {
      assert candidates[..i + 1][..i] == candidates[..i];
      if candidates[i] == extension {
        if found != null {
          found.value := Some(i);
        }
        idx := i;
      }
      i := i + 1;
    }
    assert candidates[..i] == candidates;
    if found != null && idx == -1 {
      found.value := None;
    }
  }

  /** The extension found always starts with its dot, so a candidate
      without a leading dot ("ocbl") never matches. */
  lemma UndottedNeverMatches(path: NePath, candidates: seq<string>)
    requires PathValid(path)
    requires forall j :: 0 <= j < |candidates| ==> candidates[j] == [] || candidates[j][0] != '.'
    ensures ExtensionCmpResult(path, candidates) == -1
  {
    if path.cstr.Some? {
      var s := path.cstr.value;
      var dot := ExtIndexOf(s, path.length);
      if dot < path.length {
        assert s[dot..][0] == '.';
      }
    }
  }

  /** The last match is the first one nepath.h promises whenever the
      candidates are distinct. */
  lemma LastIsFirstWhenDistinct(candidates: seq<string>, ext: string)
    requires forall i, j :: 0 <= i < j < |candidates| ==> candidates[i] != candidates[j]
    ensures LastMatch(candidates, ext) == FirstMatch(candidates, ext)
  {
  }

  /** A repeated candidate shows the difference: the last match is
      answered where the first is documented. */
  lemma RepeatedCandidate()
    ensures LastMatch([".wem", ".wem"], ".wem") == 1
    ensures FirstMatch([".wem", ".wem"], ".wem") == 0
  {
  }

  /** The characters nepath_extension_replace leaves in front of the
      terminator when it is given the new extension: the path up to its
      extension, then `extlen` characters of `newext`. */
  function Replaced(path: NePath, newext: string, extlen: nat): (t: string)
    requires PathValid(path) && path.cstr.Some? && extlen <= |newext|
    ensures |t| == ExtIndexOf(path.cstr.value, path.length) + extlen
  {
    var dot := ExtIndexOf(path.cstr.value, path.length);
    path.cstr.value[..dot] + newext[..extlen]
  }

  /** nepath_extension_replace. `dst` must hold the result and its
      terminator; a null `newext` with a non-zero `extlen` leaves those
      `extlen` characters as they were. */
  method ExtensionReplace(path: NePath, newext: Option<string>, extlen: nat, dst: array?<char>) returns (r: int)
    requires PathValid(path)
    requires newext.Some? ==> extlen <= |newext.value|
    requires dst != null && path.cstr.Some? ==> ExtIndexOf(path.cstr.value, path.length) + extlen < dst.Length
    modifies dst
    ensures path.cstr.None? ==> r == -1
    ensures path.cstr.Some? ==> r == 0
    ensures dst != null && path.cstr.None? ==> dst[..] == old(dst[..])
    ensures dst != null && path.cstr.Some? ==>
      var dot := ExtIndexOf(path.cstr.value, path.length);
      && dst[..dot] == path.cstr.value[..dot]
      && dst[dot..dot + extlen] == (if newext.Some? && extlen > 0 then newext.value[..extlen] else old(dst[dot..dot + extlen]))
      && dst[dot + extlen] == '\0'
      && dst[dot + extlen + 1..] == old(dst[dot + extlen + 1..])
  {
    if path.cstr.None? {
      return -1;
    }
    if dst == null {
      return 0;
    }
    var s := path.cstr.value;
    var dot := ExtIndex(s, path.length);
    forall i | 0 <= i < dot {
      dst[i] := s[i];
    }
    if newext.Some? && extlen > 0 {
      forall i | 0 <= i < extlen {
        dst[dot + i] := newext.value[i];
      }
    }
    dst[dot + extlen] := '\0';
    return 0;
  }

  /** A path whose last component has no dot gets the new extension
      appended to all of its measured characters. */
  lemma NoExtensionAppends(path: NePath, newext: string, extlen: nat)
    requires PathValid(path) && path.cstr.Some? && extlen <= |newext|
    requires forall j :: 0 <= j < path.length ==> path.cstr.value[j] != '.'
    ensures Replaced(path, newext, extlen) == path.cstr.value[..path.length] + newext[..extlen]
  {
  }

  /** With extlen 0 (process/bnk.c) the last extension is stripped: what
      remains is the path up to the dot the lookup found, and its length
      is that dot's index. */
  lemma EmptyExtensionStrips(path: NePath, newext: string)
    requires PathValid(path) && path.cstr.Some?
    requires ExtIndexOf(path.cstr.value, path.length) < path.length
    ensures var t := Replaced(path, newext, 0);
      |t| < path.length && t == path.cstr.value[..|t|] && path.cstr.value[|t|] == '.'
  {
  }

  /** The extension written is the one the next lookup finds: with a new
      extension "." followed by characters without dots or separators,
      the result's extension starts where the old one did. */
  lemma ReplacedExtensionFound(path: NePath, ext: string)
    requires PathValid(path) && path.cstr.Some?
    requires '.' !in ext && SEP !in ext
    ensures var t := Replaced(path, "." + ext, |ext| + 1);
      ExtIndexOf(t, |t|) == ExtIndexOf(path.cstr.value, path.length) && t[ExtIndexOf(t, |t|)..] == "." + ext
  {
    var dot := ExtIndexOf(path.cstr.value, path.length);
    var t := Replaced(path, "." + ext, |ext| + 1);
    assert ("." + ext)[..|ext| + 1] == "." + ext;
    assert t[dot] == '.';
    assert forall j :: dot < j < |t| ==> t[j] == ext[j - dot - 1];
    ScanFindsLastDot(t, |t|, dot);
    assert t[dot..] == "." + ext;
  }

  /** The scan stops at a dot with no dot or separator after it. */
  lemma {:induction false} ScanFindsLastDot(s: string, i: nat, dot: nat)
    requires dot < i <= |s| && s[dot] == '.'
    requires forall j :: dot < j < i ==> s[j] != '.' && s[j] != SEP
    ensures ExtScan(s, i, |s|) == dot
    decreases i
  {
    if i - 1 > dot {
      ScanFindsLastDot(s, i - 1, dot);
    }
  }

  /** A library named "lib.ocbl": the candidate "ocbl" (as neinput.c
      passes it) does not match its extension, ".ocbl" does. */
  lemma OcblNeedsItsDot()
    ensures ExtensionCmpResult(NePath(Some("lib.ocbl"), 8), ["ocbl"]) == -1
    ensures ExtensionCmpResult(NePath(Some("lib.ocbl"), 8), [".ocbl"]) == 0
  {
    var s := "lib.ocbl";
    assert s[3] == '.' && forall j :: 3 < j < 8 ==> s[j] != '.' && s[j] != SEP;
    ScanFindsLastDot(s, 8, 3);
    assert s[3..] == ".ocbl";
  }
}
