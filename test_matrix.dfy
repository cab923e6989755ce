/** The test driver T.py: it walks the "test" directory, sorts every file name
    into one of five buckets, gives each file an invocation whose option flags
    come from the bits of its index in the bucket, overlays quiet/debug flags by
    global position and joins everything into one command line.

    The walk itself (os.walk) is an input: `walk` holds the file-name list of
    every visited directory, in the order the walk yields them. Printing and
    running the command are left out; `Generate` returns the command string. */
module TestMatrix {

  datatype Kind = Ogg | Weem | Wisp | Bank | Auto

  // ---------------------------------------------------------------------
  // Names and buckets

  /** Python's str.lower(), restricted to ASCII letters: only capitals
      change, and no capital is left. */
  function LowerChar(c: char): (l: char)
    ensures !('A' <= l <= 'Z')
    ensures l != c ==> 'A' <= c <= 'Z'
    ensures 'a' <= l <= 'z' <==> 'a' <= c <= 'z' || 'A' <= c <= 'Z'
  {
    if 'A' <= c <= 'Z' then (c as int + 32) as char else c
  }

  function Lower(s: string): (r: string)
    ensures |r| == |s|
    ensures forall i :: 0 <= i < |s| ==> r[i] == LowerChar(s[i])
  {
    if s == [] then [] else [LowerChar(s[0])] + Lower(s[1..])
  }

  predicate StartsWith(s: string, p: string) {
    |p| <= |s| && s[..|p|] == p
  }

  predicate EndsWith(s: string, p: string) {
    |p| <= |s| && s[|s| - |p|..] == p
  }

  /** The extension that sends a name to a bucket other than auto. */
  function Extension(k: Kind): string
    requires k != Auto
  {
    match k
    case Ogg => ".ogg"
    case Weem => ".wem"
    case Wisp => ".wsp"
    case Bank => ".bnk"
  }

  /** The bucket a file name is sorted into: a bucket other than auto
      means the name ends in its extension and does not start with
      "unknown", in any ASCII letter case. */
  function KindOf(name: string): (k: Kind)
    ensures k != Auto ==> EndsWith(Lower(name), Extension(k)) && !StartsWith(Lower(name), "unknown")
    ensures k != Auto ==> |name| >= 4 && name[|name| - 4] == '.'
  {
    var f := Lower(name);
    if StartsWith(f, "unknown") then Auto
    else if EndsWith(f, ".ogg") then Ogg
    else if EndsWith(f, ".wem") then Weem
    else if EndsWith(f, ".wsp") then Wisp
    else if EndsWith(f, ".bnk") then Bank
    else Auto
  }

  /** os.path.join("test", f): the walk root is ignored, so a file found in a
      subdirectory still gets "test/<name>". */
  function PathOf(name: string): (p: string)
    ensures |p| == |name| + 5 && p[..5] == "test/" && p[5..] == name
  {
    "test/" + name
  }

  // ---------------------------------------------------------------------
  // sorted(): Python orders strings by code point, a proper prefix first

  predicate LexLeq(a: string, b: string)
    decreases |a|
  {
    |a| == 0 || (|b| > 0 && (a[0] < b[0] || (a[0] == b[0] && LexLeq(a[1..], b[1..]))))
  }

  lemma {:induction false} LexLeqTotal(a: string, b: string)
    ensures LexLeq(a, b) || LexLeq(b, a)
    decreases |a|
  {
    if |a| > 0 && |b| > 0 && a[0] == b[0] {
      LexLeqTotal(a[1..], b[1..]);
    }
  }

  lemma {:induction false} LexLeqTrans(a: string, b: string, c: string)
    requires LexLeq(a, b) && LexLeq(b, c)
    ensures LexLeq(a, c)
    decreases |a|
  {
    if |a| > 0 && a[0] == b[0] && b[0] == c[0] {
      LexLeqTrans(a[1..], b[1..], c[1..]);
    }
  }

  predicate Sorted(s: seq<string>) {
    forall i, j :: 0 <= i < j < |s| ==> LexLeq(s[i], s[j])
  }

  function Insert(x: string, s: seq<string>): (r: seq<string>)
    ensures multiset(r) == multiset(s) + multiset{x}
  {
    if s == [] then [x]
    else if LexLeq(x, s[0]) then [x] + s
    else
      assert s == [s[0]] + s[1..];
      [s[0]] + Insert(x, s[1..])
  }

  /** sorted(fs) */
  function Sort(s: seq<string>): (r: seq<string>)
    ensures multiset(r) == multiset(s)
  {
    if s == [] then []
    else
      assert s == [s[0]] + s[1..];
      Insert(s[0], Sort(s[1..]))
  }

  lemma {:induction false} InsertSorted(x: string, s: seq<string>)
    requires Sorted(s)
    ensures Sorted(Insert(x, s))
  {
    if s == [] {
    } else if LexLeq(x, s[0]) {
      var r := [x] + s;
      forall i, j | 0 <= i < j < |r|
        ensures LexLeq(r[i], r[j])
      {
        if i == 0 {
          if j > 1 { LexLeqTrans(x, s[0], s[j - 1]); }
        } else {
          assert r[i] == s[i - 1] && r[j] == s[j - 1];
        }
      }
    } else {
      LexLeqTotal(x, s[0]);
      var u := s[1..];
      assert Sorted(u) by {
        forall i, j | 0 <= i < j < |u| ensures LexLeq(u[i], u[j]) {
          assert u[i] == s[i + 1] && u[j] == s[j + 1];
        }
      }
      InsertSorted(x, u);
      var t := Insert(x, u);
      assert forall k :: 0 <= k < |u| ==> LexLeq(s[0], u[k]) by {
        forall k | 0 <= k < |u| ensures LexLeq(s[0], u[k]) {
          assert u[k] == s[k + 1];
        }
      }
      InsertLowerBound(x, u, s[0]);
      var r := [s[0]] + t;
      assert r == Insert(x, s);
      forall i, j | 0 <= i < j < |r|
        ensures LexLeq(r[i], r[j])
      {
        if i == 0 {
          assert r[j] == t[j - 1];
        } else {
          assert r[i] == t[i - 1] && r[j] == t[j - 1];
        }
      }
    }
  }

  /** A lower bound of x and of every element of s bounds every element of
      Insert(x, s). */
  lemma {:induction false} InsertLowerBound(x: string, s: seq<string>, b: string)
    requires LexLeq(b, x)
    requires forall k :: 0 <= k < |s| ==> LexLeq(b, s[k])
    ensures forall k :: 0 <= k < |Insert(x, s)| ==> LexLeq(b, Insert(x, s)[k])
  {
    if s != [] && !LexLeq(x, s[0]) {
      var u := s[1..];
      assert forall k :: 0 <= k < |u| ==> LexLeq(b, u[k]) by {
        forall k | 0 <= k < |u| ensures LexLeq(b, u[k]) {
          assert u[k] == s[k + 1];
        }
      }
      InsertLowerBound(x, u, b);
      var r := Insert(x, s);
      assert r == [s[0]] + Insert(x, u);
      forall k | 0 <= k < |r| ensures LexLeq(b, r[k]) {
        if k > 0 { assert r[k] == Insert(x, u)[k - 1]; }
      }
    } else if s != [] {
      var r := Insert(x, s);
      forall k | 0 <= k < |r| ensures LexLeq(b, r[k]) {
        if k > 0 { assert r[k] == s[k - 1]; }
      }
    }
  }

  lemma {:induction false} SortSorted(s: seq<string>)
    ensures Sorted(Sort(s))
  {
    if s != [] {
      SortSorted(s[1..]);
      InsertSorted(s[0], Sort(s[1..]));
    }
  }

  // ---------------------------------------------------------------------
  // The walk, as the specification of the classification loop

  /** Every file name in visiting order: each directory's names sorted. */
  function Visited(walk: seq<seq<string>>): (r: seq<string>)
    ensures multiset(r) == Everything(walk)
  {
    if walk == [] then [] else Visited(walk[..|walk| - 1]) + Sort(walk[|walk| - 1])
  }

  /** All file names of the walk, as a multiset. */
  function Everything(walk: seq<seq<string>>): multiset<string> {
    if walk == [] then multiset{} else Everything(walk[..|walk| - 1]) + multiset(walk[|walk| - 1])
  }

  /** The paths of the names of kind `k`, in order. */
  function Filter(names: seq<string>, k: Kind): seq<string> {
    if names == [] then []
    else Filter(names[..|names| - 1], k) + (if KindOf(names[|names| - 1]) == k then [PathOf(names[|names| - 1])] else [])
  }

  /** The list T.py builds for bucket `k`. */
  function Bucket(walk: seq<seq<string>>, k: Kind): seq<string> {
    Filter(Visited(walk), k)
  }

  lemma FilterSnoc(names: seq<string>, x: string, k: Kind)
    ensures Filter(names + [x], k) == Filter(names, k) + (if KindOf(x) == k then [PathOf(x)] else [])
  {
    assert (names + [x])[..|names|] == names;
  }

  /** The five buckets are a partition of the walked files: every file lands in
      exactly one of them, once. */
  lemma {:induction false} FilterPartition(names: seq<string>)
    ensures multiset(Filter(names, Ogg)) + multiset(Filter(names, Weem)) + multiset(Filter(names, Wisp))
          + multiset(Filter(names, Bank)) + multiset(Filter(names, Auto))
         == multiset(Paths(names))
  {
    if names != [] {
      var init, last := names[..|names| - 1], names[|names| - 1];
      FilterPartition(init);
      forall k ensures multiset(Filter(names, k)) == multiset(Filter(init, k)) + OneIf(KindOf(last) == k, PathOf(last)) {
      }
      assert multiset(Paths(names)) == multiset(Paths(init)) + multiset{PathOf(last)};
      var k, p := KindOf(last), PathOf(last);
      KindsCover(k, p);
      Regroup(multiset(Filter(init, Ogg)), multiset(Filter(init, Weem)), multiset(Filter(init, Wisp)),
              multiset(Filter(init, Bank)), multiset(Filter(init, Auto)),
              OneIf(k == Ogg, p), OneIf(k == Weem, p), OneIf(k == Wisp, p), OneIf(k == Bank, p), OneIf(k == Auto, p));
    }
  }

  lemma Regroup<T>(a: multiset<T>, b: multiset<T>, c: multiset<T>, d: multiset<T>, e: multiset<T>,
                   x: multiset<T>, y: multiset<T>, z: multiset<T>, u: multiset<T>, v: multiset<T>)
    ensures (a + x) + (b + y) + (c + z) + (d + u) + (e + v) == (a + b + c + d + e) + (x + y + z + u + v)
  {
  }

  /** The multiset holding p when b holds, else empty. */
  function OneIf(b: bool, p: string): (m: multiset<string>)
    ensures |m| == (if b then 1 else 0)
  {
    if b then multiset{p} else multiset{}
  }

  /** Exactly one of the five kinds is the kind of a name. */
  lemma KindsCover(k: Kind, p: string)
    ensures OneIf(k == Ogg, p) + OneIf(k == Weem, p) + OneIf(k == Wisp, p) + OneIf(k == Bank, p) + OneIf(k == Auto, p)
         == multiset{p}
  {
  }

  function Paths(names: seq<string>): (r: seq<string>)
    ensures |r| == |names| && forall i :: 0 <= i < |names| ==> r[i] == PathOf(names[i])
  {
    if names == [] then [] else Paths(names[..|names| - 1]) + [PathOf(names[|names| - 1])]
  }

  lemma BucketsPartitionWalk(walk: seq<seq<string>>)
    ensures |Bucket(walk, Ogg)| + |Bucket(walk, Weem)| + |Bucket(walk, Wisp)| + |Bucket(walk, Bank)| + |Bucket(walk, Auto)|
         == |Visited(walk)|
    ensures multiset(Bucket(walk, Ogg)) + multiset(Bucket(walk, Weem)) + multiset(Bucket(walk, Wisp))
          + multiset(Bucket(walk, Bank)) + multiset(Bucket(walk, Auto))
         == multiset(Paths(Visited(walk)))
  {
    var v := Visited(walk);
    FilterPartition(v);
    assert |multiset(Paths(v))| == |v|;
  }

  /** Each bucket entry is "test/<name>" for a walked name of that kind. */
  lemma {:induction false} FilterMembers(names: seq<string>, k: Kind, p: string)
    requires p in Filter(names, k)
    ensures exists n :: n in names && KindOf(n) == k && p == PathOf(n)
  {
    var last := names[|names| - 1];
    if p in Filter(names[..|names| - 1], k) {
      FilterMembers(names[..|names| - 1], k, p);
      var n :| n in names[..|names| - 1] && KindOf(n) == k && p == PathOf(n);
      assert n in names;
    } else {
      assert last in names;
    }
  }

  /** A name starting with "unknown", in any letter case, goes to autos even
      with a recognised suffix. */
  lemma UnknownGoesToAuto(name: string)
    requires StartsWith(Lower(name), "unknown")
    ensures KindOf(name) == Auto
  {
  }

  // ---------------------------------------------------------------------
  // Invocations

  function Pow2(n: nat): (r: nat)
    ensures r >= 1
  {
    if n == 0 then 1 else 2 * Pow2(n - 1)
  }

  /** Bit n of i in two's complement, as Python's `i & 2**n` tests it: the
      Euclidean division by 2 is an arithmetic shift, also for negative i. */
  predicate Bit(i: int, n: nat)
    decreases n
  {
    if n == 0 then i % 2 == 1 else Bit(i / 2, n - 1)
  }

  function TypeToken(k: Kind): string {
    match k
    case Ogg => "-ogg "
    case Weem => "-weem"
    case Wisp => "-wisp"
    case Bank => "-bank"
    case Auto => "-auto"
  }

  /** Flag table of a bucket: entry n is appended when bit n of the index is set. */
  function Table(k: Kind): seq<string> {
    match k
    case Ogg => ["-ri"]
    case Weem => ["-oi", "-r", "-ri"]
    case Wisp => ["-O", "-oi", "-r", "-ri"]
    case Bank => ["-R", "-O", "-oi", "-r", "-ri"]
    case Auto => ["-R", "-O", "-oi", "-r", "-ri"]
  }

  /** The entries of `t` whose bit is set in i, in table order. */
  function Flags(t: seq<string>, i: int): (r: seq<string>)
    ensures |r| <= |t|
    ensures i == 0 ==> r == []
    ensures i == Pow2(|t|) - 1 ==> r == t
  {
    if t == [] then []
    else (if i % 2 == 1 then [t[0]] else []) + Flags(t[1..], i / 2)
  }

  function Invocation(k: Kind, i: nat, p: string): seq<string> {
    [TypeToken(k)] + Flags(Table(k), i) + [p]
  }

  function Invocations(k: Kind, paths: seq<string>): (r: seq<seq<string>>)
    ensures |r| == |paths|
  {
    seq(|paths|, i requires 0 <= i < |paths| => Invocation(k, i, paths[i]))
  }

  lemma InvocationsSnoc(k: Kind, paths: seq<string>, p: string)
    ensures Invocations(k, paths + [p]) == Invocations(k, paths) + [Invocation(k, |paths|, p)]
  {
    var l, r := Invocations(k, paths + [p]), Invocations(k, paths) + [Invocation(k, |paths|, p)];
    forall i | 0 <= i < |l| ensures l[i] == r[i] {
      if i < |paths| { assert (paths + [p])[i] == paths[i]; }
    }
  }

  lemma {:induction false} FlagsNotFromTable(t: seq<string>, i: int, x: string)
    requires x !in t
    ensures x !in Flags(t, i)
  {
    if t != [] {
      assert x !in t[1..] by {
        forall m | 0 <= m < |t[1..]| ensures t[1..][m] != x {
          assert t[1..][m] == t[m + 1];
        }
      }
      FlagsNotFromTable(t[1..], i / 2, x);
    }
  }

  /** With distinct table entries, entry n is among the flags of i exactly
      when bit n of i is set. */
  lemma {:induction false} FlagsBit(t: seq<string>, i: int, n: nat)
    requires forall a, b :: 0 <= a < b < |t| ==> t[a] != t[b]
    requires n < |t|
    ensures t[n] in Flags(t, i) <==> Bit(i, n)
  {
    var u := t[1..];
    assert t[0] !in u by {
      forall m | 0 <= m < |u| ensures u[m] != t[0] {
        assert u[m] == t[m + 1];
      }
    }
    FlagsNotFromTable(u, i / 2, t[0]);
    if n > 0 {
      FlagsBit(u, i / 2, n - 1);
      assert u[n - 1] == t[n];
    }
  }

  /** Each bucket repeats its flag pattern every 2^|table| files. */
  lemma {:induction false} FlagsPeriodic(t: seq<string>, i: int)
    ensures Flags(t, i + Pow2(|t|)) == Flags(t, i)
  {
    if t != [] {
      var p := Pow2(|t| - 1);
      assert (i + 2 * p) / 2 == i / 2 + p;
      FlagsPeriodic(t[1..], i / 2);
    }
  }

  lemma {:induction false} BitsDiffer(i: nat, j: nat, w: nat)
    requires i < Pow2(w) && j < Pow2(w) && i != j
    ensures exists n: nat :: n < w && Bit(i, n) != Bit(j, n)
  {
    if i % 2 != j % 2 {
      assert Bit(i, 0) != Bit(j, 0);
    } else {
      BitsDiffer(i / 2, j / 2, w - 1);
      var n: nat :| n < w - 1 && Bit(i / 2, n) != Bit(j / 2, n);
      assert Bit(i, n + 1) != Bit(j, n + 1);
    }
  }

  /** Indices below 2^|table| get pairwise different flag lists: each bucket
      walks through every combination of its flags. */
  lemma FlagsDistinct(t: seq<string>, i: nat, j: nat)
    requires forall a, b :: 0 <= a < b < |t| ==> t[a] != t[b]
    requires i < Pow2(|t|) && j < Pow2(|t|) && i != j
    ensures Flags(t, i) != Flags(t, j)
  {
    BitsDiffer(i, j, |t|);
    var n: nat :| n < |t| && Bit(i, n) != Bit(j, n);
    FlagsBit(t, i, n);
    FlagsBit(t, j, n);
  }

  function Repeat(x: string, n: nat): (r: seq<string>)
    ensures |r| == n && forall j :: 0 <= j < n ==> r[j] == x
  {
    if n == 0 then [] else Repeat(x, n - 1) + [x]
  }

  /** Tokens inserted after the type token of invocation i. */
  function Overlay(i: nat): seq<string> {
    var k := (i / 2) % 6;
    if Bit(i, 0) then Repeat("-q", k)
    else if Bit(i - 1, 0) then
      (if Bit(i - 1, 1) then ["-d"] else ["-Q"]) + (if Bit(i - 1, 2) then ["-c"] else [])
    else []
  }

  /** Odd positions get (i/2) mod 6 quiet flags; even positions cycle through
      four debug/quiet/colour patterns with period 8, starting with "-d -c" at 0
      because Python's -1 has every bit set. */
  lemma OverlayCycle(i: nat)
    ensures i % 2 == 1 ==> Overlay(i) == Repeat("-q", (i / 2) % 6)
    ensures i % 8 == 0 ==> Overlay(i) == ["-d", "-c"]
    ensures i % 8 == 2 ==> Overlay(i) == ["-Q"]
    ensures i % 8 == 4 ==> Overlay(i) == ["-d"]
    ensures i % 8 == 6 ==> Overlay(i) == ["-Q", "-c"]
  {
    var m := i - 1;
    var h := m / 2;
    assert Bit(m, 1) == (h % 2 == 1);
    assert Bit(m, 2) == ((h / 2) % 2 == 1) by {
      assert Bit(m, 2) == Bit(h, 1) == Bit(h / 2, 0);
    }
    var q := i / 8;
    if i % 8 == 0 {
      assert m == 2 * (4 * q - 1) + 1 && h == 4 * q - 1 && h == 2 * (2 * q - 1) + 1;
    } else if i % 8 == 2 {
      assert m == 2 * (4 * q) + 1 && h == 4 * q && h == 2 * (2 * q);
    } else if i % 8 == 4 {
      assert m == 2 * (4 * q + 1) + 1 && h == 4 * q + 1 && h == 2 * (2 * q) + 1;
    } else if i % 8 == 6 {
      assert m == 2 * (4 * q + 2) + 1 && h == 4 * q + 2 && h == 2 * (2 * q + 1);
    }
  }

  /** cmdargs[i].insert(1 + l, j) for each l, j in enumerate(arg). */
  function WithOverlay(inv: seq<string>, i: nat): seq<string>
    requires |inv| >= 1
  {
    inv[..1] + Overlay(i) + inv[1..]
  }

  function OverlayAll(invs: seq<seq<string>>): (r: seq<seq<string>>)
    ensures |r| == |invs|
  {
    seq(|invs|, i requires 0 <= i < |invs| => if |invs[i]| >= 1 then WithOverlay(invs[i], i) else invs[i])
  }

  /** " ".join(ts) */
  function JoinSpace(ts: seq<string>): string {
    if ts == [] then ""
    else if |ts| == 1 then ts[0]
    else JoinSpace(ts[..|ts| - 1]) + " " + ts[|ts| - 1]
  }

  function JoinEach(invs: seq<seq<string>>): (r: seq<string>)
    ensures |r| == |invs|
  {
    seq(|invs|, i requires 0 <= i < |invs| => JoinSpace(invs[i]))
  }

  /** All invocations in bucket order. */
  function AllInvocations(walk: seq<seq<string>>): seq<seq<string>> {
    Invocations(Ogg, Bucket(walk, Ogg)) + Invocations(Weem, Bucket(walk, Weem))
      + Invocations(Wisp, Bucket(walk, Wisp)) + Invocations(Bank, Bucket(walk, Bank))
      + Invocations(Auto, Bucket(walk, Auto))
  }

  /** The final command line T.py runs. */
  function Command(walk: seq<seq<string>>): string {
    "./NAeP " + JoinSpace(JoinEach(OverlayAll(AllInvocations(walk))))
  }

  /** With no files the command is the program name and a space. */
  lemma CommandWithoutFiles(walk: seq<seq<string>>)
    requires forall d :: 0 <= d < |walk| ==> walk[d] == []
    ensures Command(walk) == "./NAeP "
  {
    EverythingEmpty(walk);
    assert Visited(walk) == [];
  }

  lemma {:induction false} EverythingEmpty(walk: seq<seq<string>>)
    requires forall d :: 0 <= d < |walk| ==> walk[d] == []
    ensures Everything(walk) == multiset{}
  {
    if walk != [] {
      EverythingEmpty(walk[..|walk| - 1]);
    }
  }

  /** One invocation per walked file, ordered oggs, weems, wisps, banks, autos. */
  lemma InvocationCount(walk: seq<seq<string>>)
    ensures |AllInvocations(walk)| == |Visited(walk)|
  {
    BucketsPartitionWalk(walk);
  }

  /** Every invocation is [type token, flags..., path], the path last and
      taken from the walk. */
  lemma InvocationShape(walk: seq<seq<string>>, i: nat)
    requires i < |AllInvocations(walk)|
    ensures |AllInvocations(walk)[i]| >= 2
    ensures AllInvocations(walk)[i][0] in {"-ogg ", "-weem", "-wisp", "-bank", "-auto"}
    ensures var inv := AllInvocations(walk)[i]; inv[|inv| - 1] in Paths(Visited(walk))
  {
    var n0 := |Bucket(walk, Ogg)|;
    var n1 := n0 + |Bucket(walk, Weem)|;
    var n2 := n1 + |Bucket(walk, Wisp)|;
    var n3 := n2 + |Bucket(walk, Bank)|;
    var (k, j) :=
      if i < n0 then (Ogg, i)
      else if i < n1 then (Weem, i - n0)
      else if i < n2 then (Wisp, i - n1)
      else if i < n3 then (Bank, i - n2)
      else (Auto, i - n3);
    assert AllInvocations(walk)[i] == Invocation(k, j, Bucket(walk, k)[j]);
    var p := Bucket(walk, k)[j];
    FilterMembers(Visited(walk), k, p);
    var n :| n in Visited(walk) && KindOf(n) == k && p == PathOf(n);
    var m :| 0 <= m < |Visited(walk)| && Visited(walk)[m] == n;
    assert Paths(Visited(walk))[m] == p;
  }

  // ---------------------------------------------------------------------
  // The script, statement by statement

  /** The five lists of lines 8-12. */
  datatype Buckets = Buckets(weems: seq<string>, wisps: seq<string>, banks: seq<string>, oggs: seq<string>, autos: seq<string>)
  {
    function Get(k: Kind): seq<string> {
      match k
      case Ogg => oggs
      case Weem => weems
      case Wisp => wisps
      case Bank => banks
      case Auto => autos
    }
  }

  /** Lines 21-29: append the path of f to the list its lower-cased name selects. */
  method Place(b: Buckets, f: string) returns (r: Buckets)
    ensures forall k :: r.Get(k) == b.Get(k) + (if KindOf(f) == k then [PathOf(f)] else [])
  {
    var lower := Lower(f);
    var p := PathOf(f);
    r := b;
    if StartsWith(lower, "unknown") { r := r.(autos := r.autos + [p]); }
    else if EndsWith(lower, ".ogg") { r := r.(oggs := r.oggs + [p]); }
    else if EndsWith(lower, ".wem") { r := r.(weems := r.weems + [p]); }
    else if EndsWith(lower, ".wsp") { r := r.(wisps := r.wisps + [p]); }
    else if EndsWith(lower, ".bnk") { r := r.(banks := r.banks + [p]); }
    else { r := r.(autos := r.autos + [p]); }
  }

  /** Lines 20-29 for one directory: place its names in order. */
  method PlaceAll(b: Buckets, names: seq<string>, ghost seen: seq<string>) returns (r: Buckets)
    requires forall k :: b.Get(k) == Filter(seen, k)
    ensures forall k :: r.Get(k) == Filter(seen + names, k)
  {
    r := b;
    assert seen + names[..0] == seen;
    for j := 0 to |names|
      invariant forall k :: r.Get(k) == Filter(seen + names[..j], k)
    {
      var f := names[j];
      forall k ensures Filter(seen + names[..j] + [f], k) == Filter(seen + names[..j], k) + (if KindOf(f) == k then [PathOf(f)] else []) {
        FilterSnoc(seen + names[..j], f, k);
      }
      r := Place(r, f);
      assert seen + names[..j + 1] == seen + names[..j] + [f];
    }
    assert names[..|names|] == names;
  }

  /** Lines 19-29: bucket every walked name, directory by directory, each
      directory's names in sorted order. */
  method Classify(walk: seq<seq<string>>) returns (b: Buckets)
    ensures forall k :: b.Get(k) == Bucket(walk, k)
  {
    b := Buckets([], [], [], [], []);
    for d := 0 to |walk|
      invariant forall k :: b.Get(k) == Filter(Visited(walk[..d]), k)
    {
      var fs := Sort(walk[d]);
      assert walk[..d + 1][..d] == walk[..d];
      assert Visited(walk[..d + 1]) == Visited(walk[..d]) + fs;
      b := PlaceAll(b, fs, Visited(walk[..d]));
    }
    assert walk[..|walk|] == walk;
  }

  /** Flags can also be read off the table from its front: appending entry m
      of the table appends t[m] exactly when bit m is set. */
  lemma {:induction false} FlagsSnoc(t: seq<string>, i: int, m: nat)
    requires m < |t|
    ensures Flags(t[..m + 1], i) == Flags(t[..m], i) + (if Bit(i, m) then [t[m]] else [])
  {
    if m > 0 {
      var u := t[1..];
      assert t[..m + 1][1..] == u[..m];
      assert t[..m][1..] == u[..m - 1];
      FlagsSnoc(u, i / 2, m - 1);
    }
  }

  /** Line 34: the flags of the i-th ogg. */
  method OggFlags(i: nat) returns (arg: seq<string>)
    ensures arg == Flags(Table(Ogg), i)
  {
    var t := Table(Ogg);
    assert t[..0] == [] && t[0] == "-ri" && t[..1] == t;
    arg := [];
    FlagsSnoc(t, i, 0);
    if Bit(i, 0) { arg := arg + ["-ri"]; }
    assert arg == Flags(t[..1], i);
  }

  /** Lines 41-43: the flags of the i-th weem. */
  method WeemFlags(i: nat) returns (arg: seq<string>)
    ensures arg == Flags(Table(Weem), i)
  {
    var t := Table(Weem);
    assert t[..0] == [] && t[..3] == t;
    assert t[0] == "-oi" && t[1] == "-r" && t[2] == "-ri";
    arg := [];
    FlagsSnoc(t, i, 0);
    if Bit(i, 0) { arg := arg + ["-oi"]; }
    assert arg == Flags(t[..1], i);
    FlagsSnoc(t, i, 1);
    if Bit(i, 1) { arg := arg + ["-r"]; }
    assert arg == Flags(t[..2], i);
    FlagsSnoc(t, i, 2);
    if Bit(i, 2) { arg := arg + ["-ri"]; }
    assert arg == Flags(t[..3], i);
  }

  /** Lines 50-53: the flags of the i-th wisp. */
  method WispFlags(i: nat) returns (arg: seq<string>)
    ensures arg == Flags(Table(Wisp), i)
  {
    var t := Table(Wisp);
    assert t[..0] == [] && t[..4] == t;
    assert t[0] == "-O" && t[1] == "-oi" && t[2] == "-r" && t[3] == "-ri";
    arg := [];
    FlagsSnoc(t, i, 0);
    if Bit(i, 0) { arg := arg + ["-O"]; }
    assert arg == Flags(t[..1], i);
    FlagsSnoc(t, i, 1);
    if Bit(i, 1) { arg := arg + ["-oi"]; }
    assert arg == Flags(t[..2], i);
    FlagsSnoc(t, i, 2);
    if Bit(i, 2) { arg := arg + ["-r"]; }
    assert arg == Flags(t[..3], i);
    FlagsSnoc(t, i, 3);
    if Bit(i, 3) { arg := arg + ["-ri"]; }
    assert arg == Flags(t[..4], i);
  }

  /** Lines 60-64 and 71-75: the flags of the i-th bank or auto file. */
  method BankFlags(k: Kind, i: nat) returns (arg: seq<string>)
    requires k == Bank || k == Auto
    ensures arg == Flags(Table(k), i)
  {
    var t: seq<string> := ["-R", "-O", "-oi", "-r", "-ri"];
    assert Table(k) == t;
    assert t[..0] == [] && t[..5] == t;
    assert t[0] == "-R" && t[1] == "-O" && t[2] == "-oi" && t[3] == "-r" && t[4] == "-ri";
    arg := [];
    FlagsSnoc(t, i, 0);
    if Bit(i, 0) { arg := arg + ["-R"]; }
    assert arg == Flags(t[..1], i);
    FlagsSnoc(t, i, 1);
    if Bit(i, 1) { arg := arg + ["-O"]; }
    assert arg == Flags(t[..2], i);
    FlagsSnoc(t, i, 2);
    if Bit(i, 2) { arg := arg + ["-oi"]; }
    assert arg == Flags(t[..3], i);
    FlagsSnoc(t, i, 3);
    if Bit(i, 3) { arg := arg + ["-r"]; }
    assert arg == Flags(t[..4], i);
    FlagsSnoc(t, i, 4);
    if Bit(i, 4) { arg := arg + ["-ri"]; }
    assert arg == Flags(t[..5], i);
  }

  /** Lines 31-78, one bucket: append each file's invocation. */
  method AppendInvocations(cmdargs: seq<seq<string>>, k: Kind, paths: seq<string>) returns (out: seq<seq<string>>)
    ensures out == cmdargs + Invocations(k, paths)
  {
    out := cmdargs;
    for i := 0 to |paths|
      invariant out == cmdargs + Invocations(k, paths[..i])
    {
      var arg := [TypeToken(k)];
      var flags: seq<string>;
      match k {
        case Ogg => flags := OggFlags(i);
        case Weem => flags := WeemFlags(i);
        case Wisp => flags := WispFlags(i);
        case Bank | Auto => flags := BankFlags(k, i);
      }
      arg := arg + flags + [paths[i]];
      assert paths[..i + 1] == paths[..i] + [paths[i]];
      InvocationsSnoc(k, paths[..i], paths[i]);
      out := out + [arg];
    }
    assert paths[..|paths|] == paths;
  }

  /** Lines 81-88: the overlay tokens of global position i. */
  method OverlayArgs(i: nat) returns (arg: seq<string>)
    ensures arg == Overlay(i)
  {
    arg := [];
    var k := (i / 2) % 6;
    if Bit(i, 0) {
      for n := 0 to k
        invariant arg == Repeat("-q", n)
      {
        arg := arg + ["-q"];
      }
    } else if Bit(i - 1, 0) {
      if Bit(i - 1, 1) { arg := arg + ["-d"]; } else { arg := arg + ["-Q"]; }
      if Bit(i - 1, 2) { arg := arg + ["-c"]; }
    }
  }

  /** Line 90: insert each token at 1 + its position, i.e. right after the type token. */
  method InsertAfterType(inv: seq<string>, arg: seq<string>) returns (out: seq<string>)
    requires |inv| >= 1
    ensures out == inv[..1] + arg + inv[1..]
  {
    out := inv;
    for l := 0 to |arg|
      invariant out == inv[..1] + arg[..l] + inv[1..]
    {
      assert out[..1 + l] == inv[..1] + arg[..l];
      assert out[1 + l..] == inv[1..];
      assert arg[..l + 1] == arg[..l] + [arg[l]];
      out := out[..1 + l] + [arg[l]] + out[1 + l..];
    }
    assert arg[..|arg|] == arg;
  }

  /** Lines 80-90: overlay every invocation. */
  method ApplyOverlay(cmdargs: seq<seq<string>>) returns (out: seq<seq<string>>)
    requires forall i :: 0 <= i < |cmdargs| ==> |cmdargs[i]| >= 1
    ensures out == OverlayAll(cmdargs)
  {
    out := cmdargs;
    for i := 0 to |cmdargs|
      invariant |out| == |cmdargs|
      invariant forall j :: 0 <= j < i ==> out[j] == WithOverlay(cmdargs[j], j)
      invariant forall j :: i <= j < |cmdargs| ==> out[j] == cmdargs[j]
    {
      var arg := OverlayArgs(i);
      var inv := InsertAfterType(out[i], arg);
      out := out[i := inv];
    }
  }

  /** Lines 92-94: join each invocation, then the invocations. */
  method JoinCommand(cmdargs: seq<seq<string>>) returns (cmd: string)
    ensures cmd == "./NAeP " + JoinSpace(JoinEach(cmdargs))
  {
    var lines: seq<string> := [];
    for i := 0 to |cmdargs|
      invariant lines == JoinEach(cmdargs[..i])
    {
      lines := lines + [JoinSpace(cmdargs[i])];
    }
    assert cmdargs[..|cmdargs|] == cmdargs;
    cmd := "./NAeP " + JoinSpace(lines);
  }

  /** The whole script, without printing and running the result. */
  method Generate(walk: seq<seq<string>>) returns (cmd: string)
    ensures cmd == Command(walk)
  {
    var cmdargs := BuildInvocations(walk);
    InvocationsNonEmpty(walk);
    var overlaid := ApplyOverlay(cmdargs);
    cmd := JoinCommand(overlaid);
  }

  /** Lines 19-78: classify the walk, then append each bucket's invocations
      in the order oggs, weems, wisps, banks, autos. */
  method BuildInvocations(walk: seq<seq<string>>) returns (cmdargs: seq<seq<string>>)
    ensures cmdargs == AllInvocations(walk)
  {
    var b := Classify(walk);
    BucketFields(walk, b);
    cmdargs := [];
    cmdargs := AppendInvocations(cmdargs, Ogg, b.oggs);
    assert cmdargs == Invocations(Ogg, b.oggs);
    cmdargs := AppendInvocations(cmdargs, Weem, b.weems);
    cmdargs := AppendInvocations(cmdargs, Wisp, b.wisps);
    cmdargs := AppendInvocations(cmdargs, Bank, b.banks);
    cmdargs := AppendInvocations(cmdargs, Auto, b.autos);
  }

  /** The buckets Classify returns, field by field. */
  lemma BucketFields(walk: seq<seq<string>>, b: Buckets)
    requires forall k :: b.Get(k) == Bucket(walk, k)
    ensures b.oggs == Bucket(walk, Ogg) && b.weems == Bucket(walk, Weem) && b.wisps == Bucket(walk, Wisp)
    ensures b.banks == Bucket(walk, Bank) && b.autos == Bucket(walk, Auto)
  {
    assert b.Get(Ogg) == Bucket(walk, Ogg) && b.Get(Weem) == Bucket(walk, Weem) && b.Get(Wisp) == Bucket(walk, Wisp);
    assert b.Get(Bank) == Bucket(walk, Bank) && b.Get(Auto) == Bucket(walk, Auto);
  }

  /** Every invocation has at least its type token. */
  lemma InvocationsNonEmpty(walk: seq<seq<string>>)
    ensures forall i :: 0 <= i < |AllInvocations(walk)| ==> |AllInvocations(walk)[i]| >= 1
  {
    forall i | 0 <= i < |AllInvocations(walk)| ensures |AllInvocations(walk)[i]| >= 1 {
      InvocationShape(walk, i);
    }
  }
}
