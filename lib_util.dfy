/** The helpers that lib.c, common_lib.c and common.c each carry a copy of:
    the error-message table, replace_ext (the output name of a conversion),
    the string comparison dispatch, and the chunk loop that reads a whole
    RIFF out of a memory buffer. */
module LibUtil {
  import opened Wrappers
  import opened Riff
  import opened Errors

  // ---------------------------------------------------------------------
  // Error messages

  /** A message of lib_strerr: a fixed text, or a text followed by the code
      printed in decimal. */
  datatype Message = Fixed(text: string) | Numbered(prefix: string, code: int)

  /** The codes lib_strerr has a fixed text for. */
  predicate Named(err: int) {
    err in {I_SUCCESS, I_BUFFER_ERROR, I_IO_ERROR, I_FILE_TRUNCATED, I_INIT_ERROR, I_NOT_VORBIS,
      I_DESYNC, I_CORRUPT, I_NOT_RIFF, I_UNRECOGNIZED_DATA, I_INSUFFICIENT_DATA}
  }

  /** lib_strerr (lib.c and common_lib.c): a fixed text per named code;
      I_BAD_ERROR and every other code print themselves after a prefix. */
  function LibStrErr(err: int): (m: Message)
    ensures m.Fixed? <==> Named(err)
    ensures m.Numbered? ==> m.code == err
    ensures m.Numbered? ==> (m.prefix == "I don't know what to do " <==> err == I_BAD_ERROR)
  {
    if err == I_SUCCESS then Fixed("Success")
    else if err == I_BUFFER_ERROR then Fixed("Buffer/memory error")
    else if err == I_IO_ERROR then Fixed("File I/O error")
    else if err == I_FILE_TRUNCATED then Fixed("File truncated")
    else if err == I_INIT_ERROR then Fixed("Initialization error")
    else if err == I_NOT_VORBIS then Fixed("Data is not Vorbis")
    else if err == I_DESYNC then Fixed("Desync while decoding stream")
    else if err == I_CORRUPT then Fixed("Corrupted data")
    else if err == I_NOT_RIFF then Fixed("Data is not RIFF")
    else if err == I_UNRECOGNIZED_DATA then Fixed("Data type is unrecognized")
    else if err == I_INSUFFICIENT_DATA then Fixed("Insufficient data to decode")
    else if err == I_BAD_ERROR then Numbered("I don't know what to do ", err)
    else Numbered("Unrecognized error code ", err)
  }

  /** i_strerr (common.c): the older table, without I_INSUFFICIENT_DATA and
      without the code in the text. */
  function CommonStrErr(err: int): (s: string)
    ensures s == "Unrecognized error code" <==> (!Named(err) && err != I_BAD_ERROR) || err == I_INSUFFICIENT_DATA
  {
    if err == I_SUCCESS then "Success"
    else if err == I_BUFFER_ERROR then "Buffer/memory error"
    else if err == I_IO_ERROR then "File I/O error"
    else if err == I_FILE_TRUNCATED then "File truncated"
    else if err == I_INIT_ERROR then "Initialization error"
    else if err == I_NOT_VORBIS then "Data is not Vorbis"
    else if err == I_DESYNC then "Desync while decoding stream"
    else if err == I_CORRUPT then "Corrupted headers/stream"
    else if err == I_NOT_RIFF then "Data is not RIFF"
    else if err == I_UNRECOGNIZED_DATA then "Data type is unrecognized"
    else if err == I_BAD_ERROR then "I don't know what to do"
    else "Unrecognized error code"
  }

  /** lib_strerr never gives two codes the same message. */
  lemma LibStrErrIdentifies(a: int, b: int)
    requires LibStrErr(a) == LibStrErr(b)
    ensures a == b
  {
  }

  /** The two tables agree on the text of every code except I_CORRUPT and
      I_INSUFFICIENT_DATA; where lib_strerr prints the code, its prefix is
      i_strerr's text and a space. */
  lemma StrErrCopies(err: int)
    ensures LibStrErr(err).Fixed? && err != I_CORRUPT && err != I_INSUFFICIENT_DATA ==>
      LibStrErr(err).text == CommonStrErr(err)
    ensures LibStrErr(err).Numbered? ==> LibStrErr(err) == Numbered(CommonStrErr(err) + " ", err)
    ensures err == I_CORRUPT ==> LibStrErr(err).text != CommonStrErr(err)
  {
  }

  // ---------------------------------------------------------------------
  // replace_ext

  /** BRRPATH_SEP_CHR of a POSIX build. */
  const SEP: char := '/'

  /** A C string's characters, without its terminator. */
  predicate CText(s: string) {
    '\0' !in s
  }

  /** The index a loop `for (i = hi; i > lo && s[i] != c; --i);` stops at:
      the last c in (lo, hi], or lo when there is none. */
  function Back(s: string, hi: nat, lo: nat, c: char): (i: nat)
    requires lo <= hi < |s|
    ensures lo <= i <= hi
    ensures i > lo ==> s[i] == c
    ensures forall j :: i < j <= hi ==> s[j] != c
    decreases hi
  {
    if hi == lo || s[hi] == c then hi else Back(s, hi - 1, lo, c)
  }

  /** How much of the input replace_ext keeps: up to the dot it found, when
      that dot lies past the character after the separator it found;
      nothing otherwise. */
  function Kept(s: string, inlen: nat): (n: nat)
    requires inlen < |s|
    ensures n <= inlen
    ensures n > 0 ==> s[n] == '.' && forall j :: n < j <= inlen ==> s[j] != '.' && s[j] != SEP
  {
    var sep := Back(s, inlen, 0, SEP);
    var dot := Back(s, inlen, sep, '.');
    if dot > sep + 1 then dot else 0
  }

  /** The name replace_ext prints: the kept part, then the replacement. */
  function Renamed(s: string, inlen: nat, replacement: string): (t: string)
    requires inlen < |s|
    ensures |t| == Kept(s, inlen) + |replacement|
    ensures t[..Kept(s, inlen)] == s[..Kept(s, inlen)] && t[Kept(s, inlen)..] == replacement
  {
    s[..Kept(s, inlen)] + replacement
  }

  /** What snprintf into a buffer of max + 1 characters leaves: the first
      max characters of t at most, then a terminator, the rest as before. */
  ghost predicate Printed(after: seq<char>, before: seq<char>, t: string, max: nat)
    requires |after| == |before| > max
  {
    var k := if |t| < max then |t| else max;
    after[..k] == t[..k] && after[k] == '\0' && after[k + 1..] == before[k + 1..]
  }

  /** lib_replace_ext (lib.c, common_lib.c) and replace_ext (common.c).
      `input` and `output` are None/null for null pointers; the answer is
      always 0, and `outlen` is the length snprintf reports, which the
      source stores when it is given a place to; None when nothing was
      written. `max` is BRRPATH_MAX_PATH. */
  method ReplaceExt(input: Option<string>, inlen: nat, output: array?<char>, max: nat, replacement: string)
    returns (r: int, outlen: Option<nat>)
    requires input.Some? ==> inlen < |input.value| && CText(input.value[..inlen])
    requires CText(replacement)
    requires output != null ==> output.Length > max
    modifies output
    ensures r == 0
    ensures input.None? || output == null ==> outlen.None?
    ensures input.None? && output != null ==> output[..] == old(output[..])
    ensures input.Some? && output != null ==>
      outlen == Some(|Renamed(input.value, inlen, replacement)|)
      && Printed(output[..], old(output[..]), Renamed(input.value, inlen, replacement), max)
  {
    if input.None? || output == null {
      return 0, None;
    }
    var s := input.value;
    var sep: nat := inlen;
    while sep > 0 && s[sep] != SEP
      invariant sep <= inlen
      invariant Back(s, inlen, 0, SEP) == Back(s, sep, 0, SEP)
    {
      sep := sep - 1;
    }
    var dot: nat := inlen;
    while dot > sep && s[dot] != '.'
      invariant sep <= dot <= inlen
      invariant Back(s, inlen, sep, '.') == Back(s, dot, sep, '.')
    {
      dot := dot - 1;
    }
    var nlen := 0;
    if dot > sep + 1 {
      nlen := dot;
    }
    var t := s[..nlen] + replacement;
    Print(output, max, t);
    return 0, Some(|t|);
  }

  /** snprintf(output, max + 1, "%s", t). */
  method Print(output: array<char>, max: nat, t: string)
    requires output.Length > max
    modifies output
    ensures Printed(output[..], old(output[..]), t, max)
  {
    var k := if |t| < max then |t| else max;
    forall i | 0 <= i < k {
      output[i] := t[i];
    }
    output[k] := '\0';
  }

  /** The last position of c in s. */
  function LastIndex(s: string, c: char): (r: Option<nat>)
    ensures r.Some? ==> r.value < |s| && s[r.value] == c && forall j :: r.value < j < |s| ==> s[j] != c
    ensures r.None? ==> forall j :: 0 <= j < |s| ==> s[j] != c
  {
    if s == [] then None
    else if s[|s| - 1] == c then Some(|s| - 1)
    else LastIndex(s[..|s| - 1], c)
  }

  /** Where the last component of a path starts. */
  function NameStart(p: string): (st: nat)
    ensures st <= |p|
    ensures forall j :: st <= j < |p| ==> p[j] != SEP
    ensures st > 0 ==> p[st - 1] == SEP
  {
    match LastIndex(p, SEP)
    case None => 0
    case Some(i) => i + 1
  }

  /** Where the extension of a path starts: the last dot of its last
      component, unless that dot opens the component; the path's length
      when it has no extension. */
  function StemLength(p: string): (k: nat)
    ensures NameStart(p) <= k <= |p|
    ensures k < |p| ==> k > NameStart(p) && p[k] == '.'
    ensures forall j :: k < j < |p| ==> p[j] != '.'
    ensures k == |p| ==> forall j :: NameStart(p) < j < |p| ==> p[j] != '.'
  {
    var st := NameStart(p);
    match LastIndex(p[st..], '.')
    case Some(d) =>
      if d > 0 then st + d else |p|
    case None => |p|
  }

  /** What replace_ext evidently means to build: the path without its
      extension, then the replacement; a path without an extension keeps
      all of its name. */
  function RenamedIntended(p: string, replacement: string): (t: string)
    ensures t == p[..StemLength(p)] + replacement
    ensures |t| >= NameStart(p) && t[..NameStart(p)] == p[..NameStart(p)]
  {
    p[..StemLength(p)] + replacement
  }

  /** Where the as-written rule keeps anything, it keeps what the intended
      rule keeps, for an input terminated at `inlen`. */
  lemma RenamedAgrees(s: string, inlen: nat, replacement: string)
    requires inlen < |s| && s[inlen] == '\0'
    requires Kept(s, inlen) > 0
    ensures Renamed(s, inlen, replacement) == RenamedIntended(s[..inlen], replacement)
  {
  }

  /** A one-character name with no directory loses its stem as written:
      "a.wem" becomes ".ogg", where "a.ogg" is meant. */
  lemma ShortStemDropped()
    ensures Renamed("a.wem\0", 5, ".ogg") == ".ogg"
    ensures RenamedIntended("a.wem", ".ogg") == "a.ogg"
  {
    assert "a.wem"[1] == '.' && "a.wem"[2] != '.' && "a.wem"[3] != '.' && "a.wem"[4] != '.';
    assert "a.wem"[0..] == "a.wem";
    assert "a.wem"[..1] == "a";
  }

  /** A name without an extension is lost as written: "dir/name" becomes
      ".ogg", where "dir/name.ogg" is meant. */
  lemma NoExtensionDropsName()
    ensures Renamed("dir/name\0", 8, ".ogg") == ".ogg"
    ensures RenamedIntended("dir/name", ".ogg") == "dir/name.ogg"
  {
    assert "dir/name"[3] == SEP && forall j :: 3 < j < 8 ==> "dir/name"[j] != SEP;
    assert "dir/name"[4..] == "name";
    assert "dir/name"[..8] == "dir/name";
  }

  /** The intended rule leaves an extension the next rename finds again: a
      replacement "." followed by characters without dots or separators
      is exactly what a second rename replaces. */
  lemma IntendedReplacesOwnExtension(p: string, ext: string, again: string)
    requires StemLength(p) > NameStart(p)
    requires '.' !in ext && SEP !in ext
    ensures StemLength(RenamedIntended(p, "." + ext)) == StemLength(p)
    ensures RenamedIntended(RenamedIntended(p, "." + ext), again) == RenamedIntended(p, again)
  {
    var k := StemLength(p);
    var st := NameStart(p);
    var t := RenamedIntended(p, "." + ext);
    assert t[..k] == p[..k];
    assert forall j :: 0 <= j < k ==> t[j] == p[j];
    assert forall j :: k <= j < |t| ==> t[j] != SEP;
    assert forall j :: k < j < |t| ==> t[j] != '.';
    LastIndexIs(t, SEP, LastIndex(p, SEP));
    assert NameStart(t) == st;
    assert t[st..][k - st] == '.';
    LastIndexIs(t[st..], '.', Some(k - st));
  }

  /** The last position of c is the one the description picks. */
  lemma LastIndexIs(s: string, c: char, r: Option<nat>)
    requires r.Some? ==> r.value < |s| && s[r.value] == c && forall j :: r.value < j < |s| ==> s[j] != c
    requires r.None? ==> forall j :: 0 <= j < |s| ==> s[j] != c
    ensures LastIndex(s, c) == r
  {
  }

  // ---------------------------------------------------------------------
  // lib_cstr_compare

  /** tolower in the C locale. */
  function Fold(c: char, fold: bool): (d: char)
    ensures d == '\0' <==> c == '\0'
    ensures !fold ==> d == c
  {
    if fold && 'A' <= c <= 'Z' then (c as int + 32) as char else c
  }

  /** The character at the front of a C string, 0 at its terminator. */
  function Head(s: string, fold: bool): int {
    if s == [] then 0 else Fold(s[0], fold) as int
  }

  /** Every character folded. */
  function FoldAll(s: string, fold: bool): (f: string)
    ensures |f| == |s|
    ensures forall i :: 0 <= i < |s| ==> f[i] == Fold(s[i], fold)
  {
    if s == [] then [] else [Fold(s[0], fold)] + FoldAll(s[1..], fold)
  }

  /** The characters a bounded comparison looks at. */
  function Cut(s: string, limit: Option<nat>): (c: string)
    ensures |c| <= |s| && c == s[..|c|]
    ensures limit.None? ==> c == s
  {
    match limit
    case None => s
    case Some(n) => if n < |s| then s[..n] else s
  }

  /** One character fewer to compare. */
  function Less(limit: Option<nat>): Option<nat>
    requires limit != Some(0)
  {
    match limit
    case None => None
    case Some(n) => Some(n - 1)
  }

  /** The sign of strcmp / strncmp / strcasecmp / strncasecmp: the first
      differing (folded) character decides, a terminator counting as 0;
      `limit` bounds how many characters are looked at. */
  function Order(a: string, b: string, limit: Option<nat>, fold: bool): (r: int)
    requires CText(a) && CText(b)
    ensures -1 <= r <= 1
    decreases |a|
  {
    if limit == Some(0) then 0
    else if Head(a, fold) < Head(b, fold) then -1
    else if Head(a, fold) > Head(b, fold) then 1
    else if a == [] then 0
    else Order(a[1..], b[1..], Less(limit), fold)
  }

  /** lib_cstr_compare (lib.c, common_lib.c) and cstr_compare (common.c):
      max_length 0 compares whole strings, otherwise at most max_length
      characters; case_sensitive 0 folds case. Only the sign of the C
      result is modelled. */
  function CstrCompare(a: string, b: string, maxLength: nat, caseSensitive: bool): (r: int)
    requires CText(a) && CText(b)
    ensures r == 0 <==> FoldAll(Cut(a, Bound(maxLength)), !caseSensitive) == FoldAll(Cut(b, Bound(maxLength)), !caseSensitive)
    ensures r == -Order(b, a, Bound(maxLength), !caseSensitive)
  {
    OrderZeroIff(a, b, Bound(maxLength), !caseSensitive);
    OrderAntisymmetric(a, b, Bound(maxLength), !caseSensitive);
    Order(a, b, Bound(maxLength), !caseSensitive)
  }

  /** max_length 0 means no bound. */
  function Bound(maxLength: nat): (l: Option<nat>)
    ensures l != Some(0)
  {
    if maxLength == 0 then None else Some(maxLength)
  }

  /** The comparison is 0 exactly when the compared parts agree once
      folded. */
  lemma {:induction false} OrderZeroIff(a: string, b: string, limit: Option<nat>, fold: bool)
    requires CText(a) && CText(b)
    ensures Order(a, b, limit, fold) == 0 <==> FoldAll(Cut(a, limit), fold) == FoldAll(Cut(b, limit), fold)
    decreases |a|
  {
    if limit == Some(0) {
    } else if Head(a, fold) != Head(b, fold) {
      HeadsDiffer(a, b, limit, fold);
    } else if a != [] {
      OrderZeroIff(a[1..], b[1..], Less(limit), fold);
      ZeroStep(a, b, limit, fold);
    }
  }

  /** Equal first characters: the parts agree when the rests do. */
  lemma ZeroStep(a: string, b: string, limit: Option<nat>, fold: bool)
    requires CText(a) && CText(b) && limit != Some(0) && a != []
    requires Head(a, fold) == Head(b, fold)
    requires Order(a[1..], b[1..], Less(limit), fold) == 0 <==>
      FoldAll(Cut(a[1..], Less(limit)), fold) == FoldAll(Cut(b[1..], Less(limit)), fold)
    ensures Order(a, b, limit, fold) == 0 <==> FoldAll(Cut(a, limit), fold) == FoldAll(Cut(b, limit), fold)
  {
    assert b != [];
    FoldCutStep(a, limit, fold);
    FoldCutStep(b, limit, fold);
    ConsEqual(Fold(a[0], fold), FoldAll(Cut(a[1..], Less(limit)), fold), FoldAll(Cut(b[1..], Less(limit)), fold));
  }

  /** Sequences with the same first element are equal when their rests are. */
  lemma ConsEqual(h: char, x: string, y: string)
    ensures [h] + x == [h] + y <==> x == y
  {
    if [h] + x == [h] + y {
      assert x == ([h] + x)[1..];
    }
  }

  /** Different first characters make the compared parts differ. */
  lemma HeadsDiffer(a: string, b: string, limit: Option<nat>, fold: bool)
    requires CText(a) && CText(b) && limit != Some(0)
    requires Head(a, fold) != Head(b, fold)
    ensures FoldAll(Cut(a, limit), fold) != FoldAll(Cut(b, limit), fold)
  {
    if a != [] && b != [] {
      assert FoldAll(Cut(a, limit), fold)[0] != FoldAll(Cut(b, limit), fold)[0];
    }
  }

  /** The compared part of a non-empty string: its first character, then
      the compared part of the rest. */
  lemma FoldCutStep(s: string, limit: Option<nat>, fold: bool)
    requires s != [] && limit != Some(0)
    ensures FoldAll(Cut(s, limit), fold) == [Fold(s[0], fold)] + FoldAll(Cut(s[1..], Less(limit)), fold)
  {
    assert Cut(s, limit) == [s[0]] + Cut(s[1..], Less(limit));
    assert Cut(s, limit)[1..] == Cut(s[1..], Less(limit));
  }

  /** Swapping the strings flips the sign. */
  lemma {:induction false} OrderAntisymmetric(a: string, b: string, limit: Option<nat>, fold: bool)
    requires CText(a) && CText(b)
    ensures Order(b, a, limit, fold) == -Order(a, b, limit, fold)
    decreases |a|
  {
    if limit != Some(0) && Head(a, fold) == Head(b, fold) && a != [] {
      OrderAntisymmetric(a[1..], b[1..], Less(limit), fold);
    }
  }

  // ---------------------------------------------------------------------
  // Reading a RIFF out of a buffer

  /** What the buffer chunk loop does with one answer of
      riff_consume_chunk: None to ask again (a continuation, or an
      unrecognised chunk after a one-byte seek), otherwise its answer. */
  function Verdict(err: int): (r: Option<int>)
    ensures r == None <==> err == CONSUME_MORE || err == UNRECOGNIZED
    ensures err == CONSUMED ==> r == Some(I_SUCCESS)
    ensures err == INCOMPLETE ==> r == Some(I_INSUFFICIENT_DATA)
    ensures err !in {CONSUMED, INCOMPLETE, CONSUME_MORE, UNRECOGNIZED} ==> r == Some(ErrorCode(err))
  {
    if err == CONSUMED then Some(I_SUCCESS)
    else if err == CONSUME_MORE || err == UNRECOGNIZED then None
    else if err != INCOMPLETE then Some(ErrorCode(err))
    else Some(I_INSUFFICIENT_DATA)
  }

  /** The first answer at or after `lo` that decides the chunk loop, or
      |answers| when none does. */
  function Decisive(answers: seq<int>, lo: nat): (k: nat)
    requires lo <= |answers|
    ensures lo <= k <= |answers|
    ensures k < |answers| ==> Verdict(answers[k]).Some?
    ensures forall j :: lo <= j < k ==> Verdict(answers[j]).None?
    decreases |answers| - lo
  {
    if lo == |answers| || Verdict(answers[lo]).Some? then lo
    else Decisive(answers, lo + 1)
  }

  /** How many unrecognised chunks lie in answers[lo..hi]. */
  function Skips(answers: seq<int>, lo: nat, hi: nat): nat
    requires lo <= hi <= |answers|
    decreases hi
  {
    if lo == hi then 0
    else Skips(answers, lo, hi - 1) + (if answers[hi - 1] == UNRECOGNIZED then 1 else 0)
  }

  /** i_consume_next_buffer_chunk (lib.c, common_lib.c), reading the
      reader's answers from `lo` on: the verdict of the first deciding
      answer, None when the answers run out first; `k` is where it
      stopped and `seeks` the one-byte seeks made on the way. */
  method ConsumeNextBufferChunk(answers: seq<int>, lo: nat) returns (code: Option<int>, k: nat, seeks: nat)
    requires lo <= |answers|
    ensures k == Decisive(answers, lo)
    ensures code == if k < |answers| then Verdict(answers[k]) else None
    ensures seeks == Skips(answers, lo, k)
  {
    k, seeks := lo, 0;
    while k < |answers|
      invariant lo <= k <= |answers|
      invariant Decisive(answers, lo) == Decisive(answers, k)
      invariant seeks == Skips(answers, lo, k)
    {
      var err := answers[k];
      if err == CONSUMED {
        return Some(I_SUCCESS), k, seeks;
      } else if err == CONSUME_MORE {
        k := k + 1;
        continue;
      } else if err == UNRECOGNIZED {
        seeks := seeks + 1;
        k := k + 1;
        continue;
      } else if err != INCOMPLETE {
        return Some(ErrorCode(err)), k, seeks;
      } else {
        return Some(I_INSUFFICIENT_DATA), k, seeks;
      }
    }
    return None, k, seeks;
  }

  /** Whether an answer ends the whole read: any verdict but success. */
  predicate Ends(err: int) {
    Verdict(err).Some? && Verdict(err) != Some(I_SUCCESS)
  }

  /** The first answer at or after `lo` that ends the read, or |answers|. */
  function Stop(answers: seq<int>, lo: nat): (k: nat)
    requires lo <= |answers|
    ensures lo <= k <= |answers|
    ensures k < |answers| ==> Ends(answers[k])
    ensures forall j :: lo <= j < k ==> !Ends(answers[j])
    decreases |answers| - lo
  {
    if lo == |answers| || Ends(answers[lo]) then lo
    else Stop(answers, lo + 1)
  }

  /** The chunks read in answers[lo..hi]. */
  function Chunks(answers: seq<int>, lo: nat, hi: nat): nat
    requires lo <= hi <= |answers|
    decreases hi
  {
    if lo == hi then 0
    else Chunks(answers, lo, hi - 1) + (if Verdict(answers[hi - 1]) == Some(I_SUCCESS) then 1 else 0)
  }

  /** What the whole read answers: the verdict of the answer that ends it,
      with running out of data counted as success. */
  function ReadVerdict(answers: seq<int>): (r: Option<int>)
  {
    var k := Stop(answers, 0);
    if k == |answers| then None
    else if Verdict(answers[k]) == Some(I_INSUFFICIENT_DATA) then Some(I_SUCCESS)
    else Verdict(answers[k])
  }

  /** lib_parse_buffer_as_riff (lib.c) and lib_read_riff_from_buffer
      (common_lib.c). `syncOk` is whether riff_data_sync_from_buffer
      accepted the buffer; `answers` are riff_consume_chunk's answers in
      order. The result is I_INIT_ERROR for a refused buffer, otherwise
      that of the answer ending the read; `chunks` counts the chunks
      read before it. */
  method ParseBufferAsRiff(syncOk: bool, answers: seq<int>) returns (code: Option<int>, chunks: nat)
    ensures !syncOk ==> code == Some(I_INIT_ERROR) && chunks == 0
    ensures syncOk ==> code == ReadVerdict(answers) && chunks == Chunks(answers, 0, Stop(answers, 0))
  {
    if !syncOk {
      return Some(I_INIT_ERROR), 0;
    }
    var i := 0;
    chunks := 0;
    while true
      invariant i <= Stop(answers, 0)
      invariant Stop(answers, 0) == Stop(answers, i)
      invariant chunks == Chunks(answers, 0, i)
      decreases |answers| - i
    {
      var err, k, _ := ConsumeNextBufferChunk(answers, i);
      QuietChunks(answers, i, k);
      if err != Some(I_SUCCESS) {
        assert Stop(answers, i) == k;
        if err == Some(I_INSUFFICIENT_DATA) {
          return Some(I_SUCCESS), chunks;
        }
        return err, chunks;
      }
      chunks := chunks + 1;
      i := k + 1;
    }
  }

  /** Answers that only ask again leave the count of chunks alone. */
  lemma {:induction false} QuietChunks(answers: seq<int>, i: nat, k: nat)
    requires i <= k <= |answers|
    requires forall j :: i <= j < k ==> Verdict(answers[j]).None?
    ensures Chunks(answers, 0, k) == Chunks(answers, 0, i)
    decreases k - i
  {
    if k > i {
      QuietChunks(answers, i, k - 1);
    }
  }

  /** The answers riff_consume_chunk gives. */
  predicate ReaderAnswer(err: int) {
    err in {UNRECOGNIZED, CONSUMED, INCOMPLETE, ERROR, CONSUME_MORE, NOT_RIFF, CORRUPTED}
  }

  /** With the reader's answers, the read succeeds exactly when the answer
      that ends it is "incomplete" (the buffer is used up); the other
      endings are the buffer, not-RIFF and corruption errors. */
  lemma ReadSucceeds(answers: seq<int>)
    requires forall i :: 0 <= i < |answers| ==> ReaderAnswer(answers[i])
    ensures ReadVerdict(answers) == Some(I_SUCCESS) <==>
      Stop(answers, 0) < |answers| && answers[Stop(answers, 0)] == INCOMPLETE
    ensures ReadVerdict(answers).Some? ==> ReadVerdict(answers).value in {I_SUCCESS, I_BUFFER_ERROR, I_NOT_RIFF, I_CORRUPT}
  {
  }
}
