/** scripts/make_disk.py: the disk image the driver first mounts, and why it satisfies the driver's invariant. */
module DiskImage {
  import opened Bytes
  import opened FatLayout
  import opened FatVolume
  import opened ShortNames

  const TOTAL_SECTORS: nat := 131072
  const IMAGE_BYTES: nat := 67108864
  const FAT_SIZE: nat := 1024
  const FAT_ENTRIES: nat := 131072
  const CLUSTER_LIMIT: nat := 128994

  /** The geometry of every image, as the boot sector records it. */
  const IMAGE: Geometry := Geometry(1, 32, 2, 1024, 2, 128994)

  datatype Source = Source(name: seq<byte>, data: seq<byte>)

  // Names.

  predicate IsAlnum(c: byte) { 0x30 <= c <= 0x39 || 0x41 <= c <= 0x5A || 0x61 <= c <= 0x7A }

  predicate InBase(c: byte) { IsAlnum(c) || c == 0x5F || c == 0x2D }

  function Keep(s: seq<byte>, keep: byte -> bool): seq<byte> {
    if s == [] then [] else (if keep(s[0]) then [s[0]] else []) + Keep(s[1..], keep)
  }

  /** Position of the last dot, the length if there is none. */
  function LastDot(name: seq<byte>): (d: nat)
    ensures d <= |name|
    ensures d < |name| ==> name[d] == DOT && forall i :: d < i < |name| ==> name[i] != DOT
    ensures d == |name| ==> forall i :: 0 <= i < |name| ==> name[i] != DOT
  {
    if name == [] then 0
    else if name[|name| - 1] == DOT then |name| - 1
    else
      var d := LastDot(name[..|name| - 1]);
      if d == |name| - 1 then |name| else d
  }

  function Cut(s: seq<byte>, n: nat): seq<byte> { if |s| <= n then s else s[..n] }

  function Pad(s: seq<byte>, n: nat): (r: seq<byte>)
    requires |s| <= n
    ensures |r| == n
  {
    s + seq(n - |s|, _ => SPACE)
  }

  /** The part behind the dot at `dot`. */
  function Behind(u: seq<byte>, dot: nat): seq<byte> { if dot < |u| then u[dot + 1..] else [] }

  /** `short_name` of the script, which splits at the last dot and drops characters it does not know. */
  function ImageName(name: seq<byte>): (s: seq<byte>)
    ensures |s| == 11
  {
    var u := UpperAll(name);
    var dot := LastDot(u);
    var base := Keep(u[..dot], InBase);
    var ext := Keep(Behind(u, dot), IsAlnum);
    Pad(Cut(base, 8), 8) + Pad(Cut(ext, 3), 3)
  }

  // When script and driver agree on a name.

  /** The length of `s` without the spaces at its end. */
  function Stripped(s: seq<byte>): (n: nat)
    ensures n <= |s| && (n > 0 ==> s[n - 1] != SPACE)
    ensures forall i :: n <= i < |s| ==> s[i] == SPACE
  {
    if s == [] || s[|s| - 1] != SPACE then |s| else Stripped(s[..|s| - 1])
  }

  /** The part of a name in front of its first dot, up to eight characters. */
  function BasePart(u: seq<byte>): seq<byte> { Cut(u[..FirstDot(u)], 8) }

  /** The part behind the first dot, up to three characters. */
  function ExtPart(u: seq<byte>): seq<byte> { Cut(Behind(u, FirstDot(u)), 3) }

  /**
   * Dropping what `keep` does not know and cutting to `n` characters leaves the first `m`: they are known, and
   * either there is no room for more or nothing known follows.
   */
  predicate Leaves(s: seq<byte>, keep: byte -> bool, n: nat, m: nat)
    requires m <= |s|
  {
    (forall i :: 0 <= i < m ==> keep(s[i])) && (m == n || forall i :: m <= i < |s| ==> !keep(s[i]))
  }

  /**
   * Script and driver agree on a name, given in upper case: its first characters are those the script keeps; with
   * one dot the same holds behind it; with more, what the driver reads behind the first dot is what the script keeps
   * behind the last.
   */
  predicate Agrees(u: seq<byte>) {
    var first, last := FirstDot(u), LastDot(u);
    && Stripped(BasePart(u)) <= last && Leaves(u[..last], InBase, 8, Stripped(BasePart(u)))
    && (if first == last then Leaves(Behind(u, last), IsAlnum, 3, Stripped(ExtPart(u)))
        else ExtPart(u)[..Stripped(ExtPart(u))] == Cut(Keep(Behind(u, last), IsAlnum), 3))
  }

  lemma {:induction false} KeepAll(s: seq<byte>, keep: byte -> bool)
    requires forall i :: 0 <= i < |s| ==> keep(s[i])
    ensures Keep(s, keep) == s
  {
    if s != [] {
      KeepAll(s[1..], keep);
    }
  }

  lemma {:induction false} KeepNone(s: seq<byte>, keep: byte -> bool)
    ensures Keep(s, keep) == [] <==> forall i :: 0 <= i < |s| ==> !keep(s[i])
  {
    if s != [] {
      KeepNone(s[1..], keep);
      assert forall i :: 0 < i < |s| ==> s[i] == s[1..][i - 1];
    }
  }

  lemma {:induction false} KeepKnown(s: seq<byte>, keep: byte -> bool)
    ensures forall i :: 0 <= i < |Keep(s, keep)| ==> keep(Keep(s, keep)[i])
  {
    if s != [] {
      KeepKnown(s[1..], keep);
    }
  }

  lemma KeepStep(c: byte, s: seq<byte>, keep: byte -> bool)
    ensures Keep([c] + s, keep) == (if keep(c) then [c] else []) + Keep(s, keep)
  {
    assert ([c] + s)[1..] == s;
  }

  lemma {:induction false} KeepConcat(s: seq<byte>, t: seq<byte>, keep: byte -> bool)
    ensures Keep(s + t, keep) == Keep(s, keep) + Keep(t, keep)
  {
    if s == [] {
      assert s + t == t;
    } else {
      var c, rest := s[0], s[1..];
      assert s == [c] + rest && s + t == [c] + (rest + t);
      KeepStep(c, rest, keep);
      KeepStep(c, rest + t, keep);
      hide Keep;
      KeepConcat(rest, t, keep);
    }
  }

  lemma CutKeeps(s: seq<byte>, keep: byte -> bool, n: nat, m: nat)
    requires m <= |s| && m <= n
    ensures Cut(Keep(s, keep), n) == s[..m] <==> Leaves(s, keep, n, m)
  {
    hide Keep, Cut;
    var p, q := s[..m], s[m..];
    assert s == p + q;
    KeepConcat(p, q, keep);
    KeepRest(s, keep, m);
    if forall i :: 0 <= i < m ==> keep(s[i]) {
      KeepAll(p, keep);
      CutJoin(p, Keep(q, keep), n);
    } else if Cut(Keep(s, keep), n) == p {
      CutKnown(s, keep, n, m);
    }
  }

  lemma KeepRest(s: seq<byte>, keep: byte -> bool, m: nat)
    requires m <= |s|
    ensures Keep(s[m..], keep) == [] <==> forall i :: m <= i < |s| ==> !keep(s[i])
  {
    var q := s[m..];
    KeepNone(q, keep);
    hide Keep;
    assert forall i :: 0 <= i < |q| ==> q[i] == s[m + i];
    assert forall i :: m <= i < |s| ==> s[i] == q[i - m];
  }

  lemma CutJoin(p: seq<byte>, q: seq<byte>, n: nat)
    requires |p| <= n
    ensures Cut(p + q, n) == p <==> |p| == n || q == []
  {
  }

  lemma CutKnown(s: seq<byte>, keep: byte -> bool, n: nat, m: nat)
    requires m <= |s| && Cut(Keep(s, keep), n) == s[..m]
    ensures forall i :: 0 <= i < m ==> keep(s[i])
  {
    KeepKnown(s, keep);
    hide Keep;
    forall i | 0 <= i < m ensures keep(s[i]) {
      assert s[..m][i] == Keep(s, keep)[i];
    }
  }

  lemma PadAt(s: seq<byte>, n: nat, i: nat)
    requires |s| <= n && i < n
    ensures Pad(s, n)[i] == if i < |s| then s[i] else SPACE
  {
  }

  /** Padded strings are equal exactly when the strings are, spaces at the end aside. */
  lemma PadEqual(a: seq<byte>, b: seq<byte>, n: nat)
    requires |a| <= n && |b| <= n && forall i :: 0 <= i < |a| ==> a[i] != SPACE
    ensures Pad(a, n) == Pad(b, n) <==> a == b[..Stripped(b)]
  {
    if a == b[..Stripped(b)] {
      PadSame(a, b, n);
    }
    if Pad(a, n) == Pad(b, n) {
      PadBack(a, b, n);
    }
  }

  lemma PadSame(a: seq<byte>, b: seq<byte>, n: nat)
    requires |b| <= n && a == b[..Stripped(b)]
    ensures Pad(a, n) == Pad(b, n)
  {
    hide Pad;
    var p, q := Pad(a, n), Pad(b, n);
    forall i | 0 <= i < n ensures p[i] == q[i] {
      PadAt(a, n, i);
      PadAt(b, n, i);
    }
  }

  lemma PadBackAt(a: seq<byte>, b: seq<byte>, n: nat, i: nat)
    requires |a| <= n && |b| <= n && Pad(a, n) == Pad(b, n) && i < n && forall i :: 0 <= i < |a| ==> a[i] != SPACE
    ensures (i < |a| ==> i < Stripped(b) && a[i] == b[i]) && (i < Stripped(b) && b[i] != SPACE ==> i < |a|)
  {
    PadAt(a, n, i);
    PadAt(b, n, i);
  }

  lemma PadBack(a: seq<byte>, b: seq<byte>, n: nat)
    requires |a| <= n && |b| <= n && Pad(a, n) == Pad(b, n) && forall i :: 0 <= i < |a| ==> a[i] != SPACE
    ensures a == b[..Stripped(b)]
  {
    hide Pad;
    var m := Stripped(b);
    if |a| > 0 {
      PadBackAt(a, b, n, |a| - 1);
    }
    if m > 0 {
      PadBackAt(a, b, n, m - 1);
    }
    forall i | 0 <= i < |a| ensures a[i] == b[i] {
      PadBackAt(a, b, n, i);
    }
  }

  lemma DotsOf(name: seq<byte>)
    ensures FirstDot(UpperAll(name)) == FirstDot(name) <= LastDot(UpperAll(name))
  {
    var u := UpperAll(name);
    assert forall i :: 0 <= i < |u| ==> (u[i] == DOT <==> name[i] == DOT);
  }

  /** The driver's name as two padded parts. */
  lemma ShortParts(name: seq<byte>)
    ensures ShortName(name) == Pad(BasePart(UpperAll(name)), 8) + Pad(ExtPart(UpperAll(name)), 3)
  {
    DotsOf(name);
    var u, dot := UpperAll(name), FirstDot(name);
    hide Pad, Upper, FirstDot;
    forall i | 0 <= i < 8 ensures Pad(BasePart(u), 8)[i] == ShortChar(name, i) {
      PadAt(BasePart(u), 8, i);
    }
    forall i | 8 <= i < 11 ensures Pad(ExtPart(u), 3)[i - 8] == ShortChar(name, i) {
      PadAt(ExtPart(u), 3, i - 8);
    }
  }

  lemma KeptNotSpace(s: seq<byte>, n: nat)
    ensures forall i :: 0 <= i < |Cut(Keep(s, InBase), n)| ==> Cut(Keep(s, InBase), n)[i] != SPACE
    ensures forall i :: 0 <= i < |Cut(Keep(s, IsAlnum), n)| ==> Cut(Keep(s, IsAlnum), n)[i] != SPACE
  {
    KeepKnown(s, InBase);
    KeepKnown(s, IsAlnum);
  }

  /** The script and the driver file a name under the same eleven bytes if and only if `Agrees` says so. */
  lemma NamesAgree(name: seq<byte>)
    ensures ImageName(name) == ShortName(name) <==> Agrees(UpperAll(name))
  {
    var u := UpperAll(name);
    var first, last := FirstDot(u), LastDot(u);
    DotsOf(name);
    ShortParts(name);
    hide Keep, FirstDot, LastDot, Stripped, Pad, IsAlnum, InBase, ShortName, UpperAll, Leaves;
    var base, ext := Cut(Keep(u[..last], InBase), 8), Cut(Keep(Behind(u, last), IsAlnum), 3);
    KeptNotSpace(u[..last], 8);
    KeptNotSpace(Behind(u, last), 3);
    PadEqual(base, BasePart(u), 8);
    PadEqual(ext, ExtPart(u), 3);
    BaseAgrees(u, first, last);
    ExtAgrees(u, first, last);
    PartsEqual(Pad(base, 8), Pad(ext, 3), Pad(BasePart(u), 8), Pad(ExtPart(u), 3));
  }

  lemma PartsEqual(a: seq<byte>, b: seq<byte>, c: seq<byte>, d: seq<byte>)
    requires |a| == |c|
    ensures a + b == c + d <==> a == c && b == d
  {
    assert a == (a + b)[..|a|] && b == (a + b)[|a|..] && c == (c + d)[..|c|] && d == (c + d)[|c|..];
  }

  lemma BaseAgrees(u: seq<byte>, first: nat, last: nat)
    requires first == FirstDot(u) <= last == LastDot(u)
    ensures var m := Stripped(BasePart(u));
            m <= last && (Cut(Keep(u[..last], InBase), 8) == BasePart(u)[..m] <==> Leaves(u[..last], InBase, 8, m))
  {
    hide Keep, FirstDot, LastDot, Leaves, InBase;
    var m := Stripped(BasePart(u));
    assert BasePart(u)[..m] == u[..last][..m];
    CutKeeps(u[..last], InBase, 8, m);
  }

  lemma ExtAgrees(u: seq<byte>, first: nat, last: nat)
    requires first == FirstDot(u) <= last == LastDot(u)
    ensures var m := Stripped(ExtPart(u));
            m <= |ExtPart(u)| <= |Behind(u, first)|
            && (first == last ==>
                  (Cut(Keep(Behind(u, last), IsAlnum), 3) == ExtPart(u)[..m] <==>
                      Leaves(Behind(u, last), IsAlnum, 3, m)))
  {
    hide Keep, FirstDot, LastDot, Leaves, IsAlnum;
    var m := Stripped(ExtPart(u));
    if first == last {
      assert ExtPart(u)[..m] == Behind(u, last)[..m];
      CutKeeps(Behind(u, last), IsAlnum, 3, m);
    }
  }

  /** The script files no name under a first byte that means "never used" or "deleted". */
  lemma ImageNameVisible(name: seq<byte>)
    ensures ImageName(name)[0] != 0x00 && ImageName(name)[0] != 0xE5
  {
    var u := UpperAll(name);
    var base := Cut(Keep(u[..LastDot(u)], InBase), 8);
    KeepKnown(u[..LastDot(u)], InBase);
    hide Keep, LastDot;
    PadAt(base, 8, 0);
  }

  /** Digits, letters of either case, and, in front of the last dot, `_` and `-`. */
  predicate Known(c: byte, inBase: bool) {
    (0x30 <= c <= 0x39) || (0x41 <= c <= 0x5A) || (0x61 <= c <= 0x7A) || (inBase && (c == 0x2D || c == 0x5F))
  }

  lemma KnownUpper(c: byte)
    ensures InBase(Upper(c)) == Known(c, true) && IsAlnum(Upper(c)) == Known(c, false)
  {
  }

  lemma LastDotOf(base: seq<byte>, rest: seq<byte>)
    requires rest == [] ==> DOT !in base
    requires rest != [] ==> rest[0] == DOT && DOT !in rest[1..]
    ensures LastDot(base + rest) == |base|
  {
    var name := base + rest;
    assert forall i :: 0 <= i < |base| ==> name[i] == base[i];
    assert forall i :: |base| < i < |name| ==> name[i] == rest[1..][i - |base| - 1];
    assert rest != [] ==> name[|base|] == DOT;
  }

  lemma UpperParts(base: seq<byte>, rest: seq<byte>)
    ensures UpperAll(base + rest) == UpperAll(base) + UpperAll(rest)
    ensures DOT in UpperAll(base) <==> DOT in base
  {
    if DOT in base {
      var i :| 0 <= i < |base| && base[i] == DOT;
      assert UpperAll(base)[i] == DOT;
    }
  }

  /** The two parts of a name in the script's form. */
  lemma ImageParts(base: seq<byte>, ext: seq<byte>)
    requires DOT !in ext
    ensures ImageName(base + [DOT] + ext) ==
            Pad(Cut(Keep(UpperAll(base), InBase), 8), 8) + Pad(Cut(Keep(UpperAll(ext), IsAlnum), 3), 3)
    ensures DOT !in base && ext == [] ==> ImageName(base) == ImageName(base + [DOT])
  {
    var rest := [DOT] + ext;
    assert base + [DOT] + ext == base + rest && rest[1..] == ext;
    UpperParts(base, rest);
    UpperParts([DOT], ext);
    UpperParts(ext, []);
    UpperParts(base, []);
    var u := UpperAll(base) + ([DOT] + UpperAll(ext));
    assert UpperAll([DOT]) == [DOT];
    LastDotOf(UpperAll(base), [DOT] + UpperAll(ext));
    assert u[..|base|] == UpperAll(base) && u[|base| + 1..] == UpperAll(ext);
    if DOT !in base && ext == [] {
      LastDotOf(UpperAll(base), []);
      assert UpperAll(base) + [] == UpperAll(base) && UpperAll(base)[..|base|] == UpperAll(base);
      assert base + [DOT] + ext == base + [DOT];
    }
  }

  /** A character the script does not know is dropped, and so is a dot that is not the last one. */
  lemma DropsUnknown(a: seq<byte>, c: byte, b: seq<byte>, ext: seq<byte>)
    requires DOT !in ext
    ensures !Known(c, true) ==> ImageName(a + [c] + b + [DOT] + ext) == ImageName(a + b + [DOT] + ext)
    ensures DOT !in a + b && c != DOT && !Known(c, false) ==>
              ImageName(ext + [DOT] + (a + [c] + b)) == ImageName(ext + [DOT] + (a + b))
  {
    KnownUpper(c);
    hide ImageName, InBase, IsAlnum, Known, Upper;
    if !Known(c, true) {
      DropOne(a, c, b, InBase);
      ImageParts(a + [c] + b, ext);
      ImageParts(a + b, ext);
    }
    if DOT !in a + b && c != DOT && !Known(c, false) {
      DropOne(a, c, b, IsAlnum);
      ImageParts(ext, a + [c] + b);
      ImageParts(ext, a + b);
    }
  }

  lemma DropOne(a: seq<byte>, c: byte, b: seq<byte>, keep: byte -> bool)
    requires !keep(Upper(c))
    ensures Keep(UpperAll(a + [c] + b), keep) == Keep(UpperAll(a + b), keep)
  {
    UpperParts(a + [c], b);
    UpperParts(a, [c]);
    UpperParts(a, b);
    assert UpperAll([c]) == [Upper(c)];
    KeepConcat(UpperAll(a) + UpperAll([c]), UpperAll(b), keep);
    KeepConcat(UpperAll(a), UpperAll([c]), keep);
    KeepConcat(UpperAll(a), UpperAll(b), keep);
  }

  lemma KnownParts(base: seq<byte>, ext: seq<byte>)
    requires forall i :: 0 <= i < |base| ==> Known(base[i], true)
    requires forall i :: 0 <= i < |ext| ==> Known(ext[i], false)
    ensures ImageName(base + [DOT] + ext) == Pad(Cut(UpperAll(base), 8), 8) + Pad(Cut(UpperAll(ext), 3), 3)
    ensures ext == [] ==> ImageName(base) == ImageName(base + [DOT])
  {
    assert DOT !in ext && DOT !in base;
    ImageParts(base, ext);
    forall i | 0 <= i < |base| ensures InBase(UpperAll(base)[i]) {
      KnownUpper(base[i]);
    }
    forall i | 0 <= i < |ext| ensures IsAlnum(UpperAll(ext)[i]) {
      KnownUpper(ext[i]);
    }
    hide ImageName, InBase, IsAlnum, Known, Keep, Pad, Cut, Upper;
    KeepAll(UpperAll(base), InBase);
    KeepAll(UpperAll(ext), IsAlnum);
  }

  /** The first eight and three known characters are kept as capitals, and spaces fill the rest. */
  lemma KeepsKnown(base: seq<byte>, ext: seq<byte>)
    requires forall i :: 0 <= i < |base| ==> Known(base[i], true)
    requires forall i :: 0 <= i < |ext| ==> Known(ext[i], false)
    ensures var s := ImageName(base + [DOT] + ext);
            && (forall i :: 0 <= i < 8 && i < |base| ==>
                  s[i] == if 0x61 <= base[i] <= 0x7A then base[i] - 0x20 else base[i])
            && (forall i :: |base| <= i < 8 ==> s[i] == 0x20)
            && (forall i :: 8 <= i < 11 && i < 8 + |ext| ==>
                  s[i] == if 0x61 <= ext[i - 8] <= 0x7A then ext[i - 8] - 0x20 else ext[i - 8])
            && (forall i :: 8 + |ext| <= i < 11 ==> s[i] == 0x20)
    ensures ext == [] ==> ImageName(base) == ImageName(base + [DOT])
  {
    KnownParts(base, ext);
    hide ImageName, Known, Pad, Cut, UpperAll;
    PaddedCapitals(base, 8);
    PaddedCapitals(ext, 3);
  }

  lemma PaddedCapitals(part: seq<byte>, n: nat)
    ensures var p := Pad(Cut(UpperAll(part), n), n);
            && (forall i :: 0 <= i < n && i < |part| ==>
                  p[i] == if 0x61 <= part[i] <= 0x7A then part[i] - 0x20 else part[i])
            && (forall i :: |part| <= i < n ==> p[i] == 0x20)
  {
  }

  /** A name of at most eight and three known characters, with at most one dot. */
  predicate Plain(name: seq<byte>) {
    var dot := FirstDot(name);
    && 1 <= dot <= 8 && |name| <= dot + 4
    && (forall i :: 0 <= i < dot ==> InBase(name[i]))
    && (forall i :: dot < i < |name| ==> IsAlnum(name[i]))
  }

  lemma PlainDots(name: seq<byte>)
    requires Plain(name)
    ensures LastDot(UpperAll(name)) == FirstDot(UpperAll(name)) == FirstDot(name)
  {
    var u, dot := UpperAll(name), FirstDot(name);
    DotsOf(name);
    assert forall i :: 0 <= i < |u| ==> (u[i] == DOT <==> i == dot);
  }

  lemma PlainParts(name: seq<byte>)
    requires Plain(name)
    ensures var u, dot := UpperAll(name), FirstDot(name);
            && FirstDot(u) == dot && BasePart(u) == u[..dot] && ExtPart(u) == Behind(u, dot)
            && (forall i :: 0 <= i < dot ==> InBase(u[i]) && u[i] != SPACE)
            && (forall i :: 0 <= i < |Behind(u, dot)| ==> IsAlnum(Behind(u, dot)[i]) && Behind(u, dot)[i] != SPACE)
  {
    DotsOf(name);
    PlainUpper(name);
    hide FirstDot, InBase, IsAlnum, Upper;
  }

  lemma StrippedWhole(s: seq<byte>)
    requires forall i :: 0 <= i < |s| ==> s[i] != SPACE
    ensures Stripped(s) == |s|
  {
  }

  /** On plain 8.3 names they agree. */
  lemma PlainNames(name: seq<byte>)
    requires Plain(name)
    ensures Agrees(UpperAll(name)) && ImageName(name) == ShortName(name)
  {
    PlainDots(name);
    PlainParts(name);
    hide FirstDot, LastDot, Stripped, InBase, IsAlnum, Keep, UpperAll, Plain, ShortName, ImageName, BasePart, ExtPart;
    hide Behind;
    StrippedWhole(BasePart(UpperAll(name)));
    StrippedWhole(ExtPart(UpperAll(name)));
    NamesAgree(name);
  }

  lemma PlainUpper(name: seq<byte>)
    ensures forall i :: 0 <= i < |name| ==> (InBase(name[i]) ==> InBase(Upper(name[i])) && Upper(name[i]) != SPACE)
    ensures forall i :: 0 <= i < |name| ==> (IsAlnum(name[i]) ==> IsAlnum(Upper(name[i])) && Upper(name[i]) != SPACE)
  {
  }

  /** With two dots they part ways: the driver does not find `a.b.c` under the name the script gave it. */
  lemma TwoDots()
    ensures ImageName([0x61, DOT, 0x62, DOT, 0x63]) != ShortName([0x61, DOT, 0x62, DOT, 0x63])
  {
    var name := [0x61, DOT, 0x62, DOT, 0x63];
    var u := UpperAll(name);
    assert u == [0x41, DOT, 0x42, DOT, 0x43];
    assert LastDot(u) == 3;
    assert FirstDot(name) == 1;
    assert Keep([0x43], IsAlnum) == [0x43];
    assert u[4..] == [0x43];
    assert ImageName(name)[8] == 0x43 && ShortName(name)[8] == 0x42;
  }

  // Placement.

  /** Clusters given to a file: one even when it is empty. */
  function Count(data: seq<byte>): (n: nat)
    ensures n >= 1 && 512 * (n - 1) <= |data| <= 512 * n && (n > 1 ==> 512 * (n - 1) < |data|)
  {
    if data == [] then 1 else (|data| + 511) / 512
  }

  /** First cluster of file `k`. */
  function Start(sources: seq<Source>, k: nat): (c: nat)
    requires k <= |sources|
    ensures c >= 3
  {
    if k == 0 then 3 else Start(sources, k - 1) + Count(sources[k - 1].data)
  }

  lemma {:induction false} StartMonotone(sources: seq<Source>, j: nat, k: nat)
    requires j < k <= |sources|
    ensures Start(sources, j) + Count(sources[j].data) <= Start(sources, k)
    decreases k
  {
    if j < k - 1 {
      StartMonotone(sources, j, k - 1);
    }
  }

  /** Byte offset of a cluster in the image. */
  function Offset(c: nat): nat { 512 * (2078 + c) }

  /** What the script needs: room for the directory in one cluster and for the data on the disk, and no name twice. */
  ghost predicate Buildable(sources: seq<Source>) {
    && |sources| <= 15 && Start(sources, |sources|) <= CLUSTER_LIMIT
    && (forall i, j :: 0 <= i < j < |sources| ==> ImageName(sources[i].name) != ImageName(sources[j].name))
  }

  // Directory entries.

  /** `dir_entry` */
  function DirEntry(name: seq<byte>, attr: byte, cluster: nat, size: nat): (e: seq<byte>)
    requires |name| == 11 && cluster < TWO32 && size < TWO32
    ensures |e| == 32
  {
    name + [attr, 0, 0, 0, 0] + Put16(0x5A21) + Put16(0x5A21) + Put16(cluster / TWO16) + [0, 0] + Put16(0x5A21)
    + Put16(cluster % TWO16) + Put32(size)
  }

  lemma DirEntryFields(name: seq<byte>, attr: byte, cluster: nat, size: nat)
    requires |name| == 11 && cluster < TWO32 && size < TWO32 && name[0] != 0x00 && name[0] != 0xE5
    ensures var e := DirEntry(name, attr, cluster, size);
            && NameOf(e) == name && ClusterOf(e) == cluster && SizeOf(e) == size && e[0] != 0 && e[0] != 0xE5
            && (attr == 0x20 ==> Live(e)) && (attr == 0x08 ==> !Live(e))
            && e[11] == attr && e[12..16] == [0, 0, 0, 0] && e[16..20] == [0x21, 0x5A, 0x21, 0x5A]
            && e[22..26] == [0, 0, 0x21, 0x5A]
  {
    hide Le32, Put32;
    var e := DirEntry(name, attr, cluster, size);
    assert e[11] == attr;
    assert e[20] == Put16(cluster / TWO16)[0] && e[21] == Put16(cluster / TWO16)[1];
    assert e[26] == Put16(cluster % TWO16)[0] && e[27] == Put16(cluster % TWO16)[1];
    assert e[28..32] == Put32(size);
    Le32Slice(e, 28);
  }

  /** `GRAVITYOS  `, the volume label. */
  const LABEL: seq<byte> := [0x47, 0x52, 0x41, 0x56, 0x49, 0x54, 0x59, 0x4F, 0x53, 0x20, 0x20]

  /** Slot `k` of the root directory: the label, then the files. */
  function SlotEntry(sources: seq<Source>, k: nat): (e: seq<byte>)
    requires k <= |sources| && Start(sources, |sources|) <= CLUSTER_LIMIT
    ensures |e| == 32
  {
    if k == 0 then DirEntry(LABEL, 0x08, 0, 0)
    else
      StartMonotone(sources, k - 1, |sources|);
      DirEntry(ImageName(sources[k - 1].name), 0x20, Start(sources, k - 1), |sources[k - 1].data|)
  }

  // The table.

  /** The entries from `lo` up to `hi` form one chain. */
  ghost predicate Run(fat: seq<nat>, lo: nat, hi: nat) {
    lo < hi <= |fat| && forall c :: lo <= c < hi ==> fat[c] == if c == hi - 1 then FAT_LAST else c + 1
  }

  /** `fat` links the clusters of the first `k` files, and no other cluster but the root's is taken. */
  ghost predicate Linked(fat: seq<nat>, sources: seq<Source>, k: nat)
    requires k <= |sources|
  {
    && |fat| == FAT_ENTRIES && fat[0] == FAT_EOC && fat[1] == FAT_LAST && fat[2] == FAT_LAST
    && (forall c :: 0 <= c < |fat| ==> fat[c] < TWO28)
    && (forall j :: 0 <= j < k ==> Run(fat, Start(sources, j), Start(sources, j + 1)))
    && (forall c :: Start(sources, k) <= c < |fat| ==> fat[c] == 0)
  }

  /** The table as bytes. */
  function FatBytes(fat: seq<nat>): (b: seq<byte>)
    requires forall c :: 0 <= c < |fat| ==> fat[c] < TWO28
    ensures |b| == 4 * |fat|
  {
    if fat == [] then [] else FatBytes(fat[..|fat| - 1]) + Put32(fat[|fat| - 1])
  }

  lemma {:induction false} FatBytesAt(fat: seq<nat>, c: nat)
    requires c < |fat| && forall x :: 0 <= x < |fat| ==> fat[x] < TWO28
    ensures FatBytes(fat)[4 * c..4 * c + 4] == Put32(fat[c])
    decreases |fat|
  {
    hide Put32;
    var init := fat[..|fat| - 1];
    if c < |init| {
      FatBytesAt(init, c);
      assert FatBytes(fat)[4 * c..4 * c + 4] == FatBytes(init)[4 * c..4 * c + 4];
    }
  }

  // The boot sector.

  /** The parameters a driver reads, bytes 0 to 47. */
  function BootParameters(): (b: seq<byte>)
    ensures |b| == 48
  {
    [0xEB, 0x58, 0x90, 0x47, 0x52, 0x41, 0x56, 0x49, 0x54, 0x59, 0x20] + Put16(512) + [1] + Put16(32) + [2]
    + [0, 0, 0, 0, 0xF8, 0, 0] + Put16(32) + Put16(8) + [0, 0, 0, 0] + Put32(TOTAL_SECTORS) + Put32(FAT_SIZE)
    + [0, 0, 0, 0] + Put32(2)
  }

  /** Bytes 48 to 89. */
  function BootLabel(): (b: seq<byte>)
    ensures |b| == 42
  {
    Put16(1) + Put16(6) + seq(12, _ => 0) + [0x80, 0, 0x29] + Put32(0x4752_4156) + LABEL
    + [0x46, 0x41, 0x54, 0x33, 0x32, 0x20, 0x20, 0x20]
  }

  /** `build_boot_sector` */
  function BootSector(): (b: seq<byte>)
    ensures |b| == 512
  {
    BootParameters() + BootLabel() + seq(420, _ => 0) + [0x55, 0xAA]
  }

  lemma BootParameterFields()
    ensures var b := BootParameters();
            Le16(b, 11) == 512 && b[13] == 1 && Le16(b, 14) == 32 && b[16] == 2 && Le32(b, 36) == FAT_SIZE
                && Le32(b, 44) == 2
  {
    hide Le32, Put32;
    var b := BootParameters();
    assert b[36..40] == Put32(FAT_SIZE);
    assert b[44..48] == Put32(2);
    Le32Slice(b, 36);
    Le32Slice(b, 44);
  }

  /** `build_fsinfo` */
  function FsInfo(): (b: seq<byte>)
    ensures |b| == 512
  {
    Put32(0x4161_5252) + seq(480, _ => 0) + Put32(0x6141_7272) + Put32(0xFFFF_FFFF) + Put32(0xFFFF_FFFF)
    + seq(14, _ => 0) + [0x55, 0xAA]
  }

  /** What the driver reads from the boot sector. */
  lemma BootFields()
    ensures var b := BootSector();
            && Le16(b, 11) == 512 && b[13] == 1 && Le16(b, 14) == 32 && b[16] == 2 && Le32(b, 36) == FAT_SIZE
            && Le32(b, 44) == 2
            && b[510] == 0x55 && b[511] == 0xAA
  {
    BootParameterFields();
    hide BootParameters, BootLabel;
    var b, p := BootSector(), BootParameters();
    assert forall i :: 0 <= i < 48 ==> b[i] == p[i];
  }

  // The image as a disk.

  /** The bytes of the image, sector by sector. */
  function Sectors(image: seq<byte>): (d: Disk)
    ensures |d| == |image| / 512
  {
    seq(|image| / 512, i requires 0 <= i < |image| / 512 => image[512 * i..512 * i + 512])
  }

  lemma SectorAt(image: seq<byte>, i: nat)
    requires i < |image| / 512
    ensures Sectors(image)[i] == image[512 * i..512 * i + 512]
  {
  }

  lemma SubSlice(s: seq<byte>, lo: nat, hi: nat, a: nat, b: nat)
    requires lo <= hi <= |s| && a <= b <= hi - lo
    ensures s[lo..hi][a..b] == s[lo + a..lo + b]
  {
    var t, u := s[lo..hi][a..b], s[lo + a..lo + b];
    assert |t| == |u|;
    assert forall i :: 0 <= i < |t| ==> t[i] == s[lo..hi][a + i] == s[lo + (a + i)] == u[i];
  }

  lemma JoinSlices(s: seq<byte>, lo: nat, mid: nat, hi: nat)
    requires lo <= mid <= hi <= |s|
    ensures s[lo..mid] + s[mid..hi] == s[lo..hi]
  {
  }

  /** The bytes of root slot `k`. */
  function SlotBytes(sources: seq<Source>, k: nat): (e: seq<byte>)
    requires Start(sources, |sources|) <= CLUSTER_LIMIT
    ensures |e| == 32
  {
    if k <= |sources| then SlotEntry(sources, k) else seq(32, _ => 0)
  }

  /** The boot sector, the information sector behind it, and the copy of the boot sector in sector 6. */
  ghost predicate Booted(image: seq<byte>) {
    |image| >= 3584 && image[..512] == BootSector() && image[512..1024] == FsInfo() && image[3072..3584] == BootSector()
  }

  /** What the script leaves in the image, and the table it wrote. */
  ghost predicate Built(image: seq<byte>, fat: seq<nat>, sources: seq<Source>) {
    && Buildable(sources) && |image| == IMAGE_BYTES && Booted(image)
    && Linked(fat, sources, |sources|)
    && image[16384..540672] == FatBytes(fat) && image[540672..1064960] == FatBytes(fat)
    && (forall k: nat :: k < 16 ==> image[Offset(2) + 32 * k..Offset(2) + 32 * k + 32] == SlotBytes(sources, k))
    && (forall j :: 0 <= j < |sources| ==> Stored(image, Start(sources, j), sources[j].data))
  }

  /** The image has `data` from cluster `c` on. */
  ghost predicate Stored(image: seq<byte>, c: nat, data: seq<byte>) {
    Offset(c) + |data| <= |image| && image[Offset(c)..Offset(c) + |data|] == data
  }

  lemma ImageFits(image: seq<byte>)
    requires |image| == IMAGE_BYTES
    ensures Fits(IMAGE, Sectors(image))
  {
  }

  /** An entry of the table on the disk. */
  lemma EntryBytes(image: seq<byte>, fat: seq<nat>, lba: nat, c: nat)
    requires |image| == IMAGE_BYTES && |fat| == FAT_ENTRIES && (forall x :: 0 <= x < |fat| ==> fat[x] < TWO28)
    requires c < |fat|
    requires lba <= 1056 && image[512 * lba..512 * lba + 524288] == FatBytes(fat)
    ensures EntryAt(Sectors(image)[lba + c / 128], c % 128) == fat[c]
  {
    hide Le32, Put32, FatBytes, Sectors;
    var r := c % 128;
    var sector := Sectors(image)[lba + c / 128];
    SectorAt(image, lba + c / 128);
    EntrySlices(image, lba, c);
    Le32Slice(sector, 4 * r);
    FatBytesAt(fat, c);
    Le32OfPut32(sector[4 * r..4 * r + 4], fat[c]);
  }

  lemma Le32OfPut32(b: seq<byte>, v: nat)
    requires v < TWO28 && b == Put32(v)
    ensures Le32(b, 0) == v
  {
    hide Le32, Put32;
  }

  /** The four bytes of entry `c`, seen from its sector and from the table. */
  lemma EntrySlices(image: seq<byte>, lba: nat, c: nat)
    requires |image| == IMAGE_BYTES && c < FAT_ENTRIES && lba <= 1056
    ensures var a, r := 512 * (lba + c / 128), c % 128;
            image[a..a + 512][4 * r..4 * r + 4] == image[512 * lba..512 * lba + 524288][4 * c..4 * c + 4]
  {
    var a, o, r := 512 * (lba + c / 128), 512 * lba, c % 128;
    assert a + 4 * r == o + 4 * c;
    TwoSlices(image, a, a + 512, 4 * r, 4 * r + 4, o, o + 524288, 4 * c, 4 * c + 4);
  }

  lemma TwoSlices(s: seq<byte>, lo: nat, hi: nat, a: nat, b: nat, lo': nat, hi': nat, a': nat, b': nat)
    requires lo <= hi <= |s| && a <= b <= hi - lo && lo' <= hi' <= |s| && a' <= b' <= hi' - lo' && lo + a == lo' + a'
    requires lo + b == lo' + b'
    ensures s[lo..hi][a..b] == s[lo'..hi'][a'..b']
  {
    SubSlice(s, lo, hi, a, b);
    SubSlice(s, lo', hi', a', b');
  }

  lemma TableView(image: seq<byte>, fat: seq<nat>, copy: nat)
    requires |image| == IMAGE_BYTES && |fat| == FAT_ENTRIES && (forall x :: 0 <= x < |fat| ==> fat[x] < TWO28)
    requires copy < 2
    requires image[16384..540672] == FatBytes(fat) && image[540672..1064960] == FatBytes(fat)
    ensures Fits(IMAGE, Sectors(image)) && FatCopy(IMAGE, Sectors(image), copy) == fat
  {
    hide FatBytes, EntryAt, Sectors, FatCopy;
    ImageFits(image);
    var lba := 32 + 1024 * copy;
    assert image[512 * lba..512 * lba + 524288] == FatBytes(fat);
    forall c | 0 <= c < FAT_ENTRIES ensures FatCopy(IMAGE, Sectors(image), copy)[c] == fat[c] {
      FatCopyAt(IMAGE, Sectors(image), copy, c);
      EntryBytes(image, fat, lba, c);
    }
  }

  lemma ClusterView(image: seq<byte>, c: nat)
    requires |image| == IMAGE_BYTES && 2 <= c < CLUSTER_LIMIT
    ensures Fits(IMAGE, Sectors(image)) && Offset(c) + 512 <= |image|
    ensures ClusterSectors(IMAGE, Sectors(image), c) == [image[Offset(c)..Offset(c) + 512]]
  {
    ImageFits(image);
    assert IMAGE.Lba(c, 0) == 2078 + c;
  }

  // Chains of consecutive clusters.

  function Range(c: nat, n: nat): (cs: seq<nat>)
    ensures |cs| == n && forall i :: 0 <= i < n ==> cs[i] == c + i
  {
    seq(n, i requires 0 <= i < n => c + i)
  }

  lemma RangeChain(fat: seq<nat>, c: nat, n: nat)
    requires 2 <= c && n >= 1 && Run(fat, c, c + n) && c + n <= CLUSTER_LIMIT <= |fat|
    ensures Chain(fat, CLUSTER_LIMIT, c, Range(c, n))
  {
  }

  /** The sectors of consecutive clusters are consecutive bytes of the image. */
  lemma {:induction false} RangeBytes(image: seq<byte>, v: Volume, c: nat, n: nat)
    requires |image| == IMAGE_BYTES && 2 <= c && c + n <= CLUSTER_LIMIT && |v.clusters| == CLUSTER_LIMIT
    requires forall x: nat :: 2 <= x < CLUSTER_LIMIT ==> v.clusters[x] == [image[Offset(x)..Offset(x) + 512]]
    ensures Readable(v, Locs(Range(c, n), 1))
    ensures Flatten(Gather(v, Locs(Range(c, n), 1))) == image[Offset(c)..Offset(c + n)]
  {
    hide Locs, Range, Flatten, Gather, Readable;
    if n == 0 {
      RangeNone(v, c);
      assert image[Offset(c)..Offset(c)] == [];
    } else {
      RangeBytes(image, v, c, n - 1);
      LastLoc(c, n);
      var x := c + n - 1;
      OneSector(image, v, x);
      GatherOne(v, Locs(Range(c, n - 1), 1), Loc(x, 0));
      JoinSlices(image, Offset(c), Offset(x), Offset(c + n));
    }
  }

  lemma RangeNone(v: Volume, c: nat)
    ensures Readable(v, Locs(Range(c, 0), 1)) && Flatten(Gather(v, Locs(Range(c, 0), 1))) == []
  {
    assert Gather(v, Locs(Range(c, 0), 1)) == [];
  }

  lemma OneSector(image: seq<byte>, v: Volume, x: nat)
    requires |image| == IMAGE_BYTES && 2 <= x < CLUSTER_LIMIT <= |v.clusters|
    requires v.clusters[x] == [image[Offset(x)..Offset(x) + 512]]
    ensures |v.clusters[x]| == 1 && Offset(x + 1) <= |image| && v.clusters[x][0] == image[Offset(x)..Offset(x + 1)]
  {
  }

  lemma GatherOne(v: Volume, locs: seq<Loc>, last: Loc)
    requires Readable(v, locs) && last.cluster < |v.clusters| && last.sector < |v.clusters[last.cluster]|
    ensures Readable(v, locs + [last])
    ensures Flatten(Gather(v, locs + [last])) == Flatten(Gather(v, locs)) + v.clusters[last.cluster][last.sector]
  {
    var secs := Gather(v, locs + [last]);
    assert secs[..|secs| - 1] == Gather(v, locs);
  }

  lemma LastLoc(c: nat, n: nat)
    requires n >= 1
    ensures Locs(Range(c, n), 1) == Locs(Range(c, n - 1), 1) + [Loc(c + n - 1, 0)]
  {
    assert Range(c, n)[..n - 1] == Range(c, n - 1);
  }

  // The files of the image.

  function FileFor(sources: seq<Source>, j: nat): File
    requires j < |sources|
  {
    File(j + 1, Range(Start(sources, j), Count(sources[j].data)), sources[j].data)
  }

  /** What the first `k` files are called and hold. */
  ghost function FilesOf(sources: seq<Source>, k: nat): (files: Files)
    requires k <= |sources|
  {
    if k == 0 then map[] else FilesOf(sources, k - 1)[ImageName(sources[k - 1].name) := FileFor(sources, k - 1)]
  }

  lemma {:induction false} FileAt(sources: seq<Source>, k: nat, j: nat)
    requires Buildable(sources) && j < k <= |sources|
    ensures ImageName(sources[j].name) in FilesOf(sources, k)
    ensures FilesOf(sources, k)[ImageName(sources[j].name)] == FileFor(sources, j)
  {
    hide ImageName, FileFor;
    if j < k - 1 {
      FileAt(sources, k - 1, j);
    }
  }

  /** The source a file of the image comes from. */
  lemma {:induction false} SourceOf(sources: seq<Source>, k: nat, n: Name) returns (j: nat)
    requires k <= |sources| && n in FilesOf(sources, k)
    ensures j < k && ImageName(sources[j].name) == n && FilesOf(sources, k)[n] == FileFor(sources, j)
  {
    hide ImageName, FileFor;
    if n == ImageName(sources[k - 1].name) {
      j := k - 1;
    } else {
      j := SourceOf(sources, k - 1, n);
    }
  }

  /** The root directory of the image. */
  lemma RootView(image: seq<byte>, sources: seq<Source>, v: Volume)
    requires Start(sources, |sources|) <= CLUSTER_LIMIT && |image| == IMAGE_BYTES
    requires forall k: nat :: k < 16 ==> image[Offset(2) + 32 * k..Offset(2) + 32 * k + 32] == SlotBytes(sources, k)
    requires |v.clusters| == CLUSTER_LIMIT && v.clusters[2] == [image[Offset(2)..Offset(2) + 512]]
    ensures Readable(v, Locs([2], 1)) && |RootSlots(v, 1, [2])| == 16
    ensures forall k: nat :: k < 16 ==> RootSlots(v, 1, [2])[k] == SlotBytes(sources, k)
  {
    hide SlotBytes, Start, Slots, Gather, Locs, Readable;
    var sec: Sector := image[Offset(2)..Offset(2) + 512];
    OneRootSector(v, sec);
    SlotsOfOne(sec);
    forall k: nat | k < 16 ensures Slots([sec])[k] == SlotBytes(sources, k) {
      SubSlice(image, Offset(2), Offset(2) + 512, 32 * k, 32 * k + 32);
      assert image[Offset(2) + 32 * k..Offset(2) + 32 * k + 32] == SlotBytes(sources, k);
    }
  }

  lemma OneRootSector(v: Volume, sec: Sector)
    requires |v.clusters| == CLUSTER_LIMIT && v.clusters[2] == [sec]
    ensures Readable(v, Locs([2], 1)) && Gather(v, Locs([2], 1)) == [sec]
  {
    assert Locs([2], 1) == [Loc(2, 0)] by { assert [2][..0] == []; }
    assert Gather(v, [Loc(2, 0)]) == [sec];
  }

  lemma SlotsOfOne(sec: Sector)
    ensures forall k: nat :: k < 16 ==> Slots([sec])[k] == sec[32 * k..32 * k + 32]
  {
  }

  /** Slot `k` is live if and only if it names a file. */
  lemma SlotFields(sources: seq<Source>, k: nat)
    requires Buildable(sources)
    ensures var e := SlotBytes(sources, k);
            && (Live(e) <==> 1 <= k <= |sources|)
            && (e[0] == 0 <==> k > |sources|) && e[0] != 0xE5
            && e[11] == (if k == 0 then 8 else if e[0] == 0 then 0 else 32)
            && (1 <= k <= |sources| ==>
                  NameOf(e) == ImageName(sources[k - 1].name) && ClusterOf(e) == Start(sources, k - 1)
                      && SizeOf(e) == |sources[k - 1].data|)
  {
    hide DirEntry, ImageName, ClusterOf, SizeOf, NameOf, Live;
    if k == 0 {
      DirEntryFields(LABEL, 0x08, 0, 0);
    } else if k <= |sources| {
      StartMonotone(sources, k - 1, |sources|);
      ImageNameVisible(sources[k - 1].name);
      DirEntryFields(ImageName(sources[k - 1].name), 0x20, Start(sources, k - 1), |sources[k - 1].data|);
    } else {
      ZeroSlot();
    }
  }

  lemma ZeroSlot()
    ensures !Live(seq(32, _ => 0))
  {
  }

  /** A file of the image: its chain is there and spells its data. */
  lemma ImageFile(image: seq<byte>, fat: seq<nat>, sources: seq<Source>, v: Volume, j: nat)
    requires Buildable(sources) && |image| == IMAGE_BYTES && j < |sources|
    requires Run(fat, Start(sources, j), Start(sources, j + 1)) && Stored(image, Start(sources, j), sources[j].data)
    requires Shape(v, 1) && v.fats[0] == fat && |v.clusters| == CLUSTER_LIMIT
    requires forall x: nat :: 2 <= x < CLUSTER_LIMIT ==> v.clusters[x] == [image[Offset(x)..Offset(x) + 512]]
    ensures FileOk(v, 1, SlotBytes(sources, j + 1), FileFor(sources, j))
  {
    hide SlotBytes, Gather, Flatten, Chain, Locs, Range, ClusterOf, SizeOf, NameOf, Live, ImageName, Start, Run;
    hide Stored, Readable;
    var c, n, data := Start(sources, j), Count(sources[j].data), sources[j].data;
    SlotFields(sources, j + 1);
    StartMonotone(sources, j, |sources|);
    StartStep(sources, j);
    RangeChain(fat, c, n);
    RangeBytes(image, v, c, n);
    StoredPrefix(image, c, n, data);
  }

  lemma StoredPrefix(image: seq<byte>, c: nat, n: nat, data: seq<byte>)
    requires Stored(image, c, data) && |data| <= 512 * n && Offset(c + n) <= |image|
    ensures data <= image[Offset(c)..Offset(c + n)]
  {
    SubSlice(image, Offset(c), Offset(c + n), 0, |data|);
  }

  lemma StartStep(sources: seq<Source>, j: nat)
    requires j < |sources|
    ensures Start(sources, j + 1) == Start(sources, j) + Count(sources[j].data)
  {
  }

  /** No cluster is used twice. */
  lemma ImageDisjoint(sources: seq<Source>)
    requires Buildable(sources)
    ensures Disjoint([2], FilesOf(sources, |sources|))
  {
    hide FileFor, ImageName, FilesOf, Start, DisjointSeqs, Buildable;
    var k := |sources|;
    var files := FilesOf(sources, k);
    forall n | n in files ensures DisjointSeqs(files[n].chain, [2]) {
      var j := SourceOf(sources, k, n);
      ChainAboveRoot(sources, j);
    }
    forall n, m | n in files && m in files && n != m ensures DisjointSeqs(files[n].chain, files[m].chain) {
      var i := SourceOf(sources, k, n);
      var j := SourceOf(sources, k, m);
      if i < j {
        ChainsApart(sources, i, j);
      } else {
        ChainsApart(sources, j, i);
      }
    }
  }

  lemma ChainAboveRoot(sources: seq<Source>, j: nat)
    requires j < |sources|
    ensures DisjointSeqs(FileFor(sources, j).chain, [2])
  {
    hide FileFor;
    ChainOf(sources, j);
  }

  lemma ChainsApart(sources: seq<Source>, i: nat, j: nat)
    requires i < j < |sources|
    ensures DisjointSeqs(FileFor(sources, i).chain, FileFor(sources, j).chain)
    ensures DisjointSeqs(FileFor(sources, j).chain, FileFor(sources, i).chain)
  {
    hide FileFor;
    ChainOf(sources, i);
    ChainOf(sources, j);
    StartMonotone(sources, i, j);
  }

  lemma ChainOf(sources: seq<Source>, j: nat)
    requires j < |sources|
    ensures forall c :: c in FileFor(sources, j).chain ==>
              Start(sources, j) <= c < Start(sources, j) + Count(sources[j].data) && c >= 3
  {
  }

  /** Directory slots and files of the image correspond. */
  lemma ImageIndexed(sources: seq<Source>, slots: seq<seq<byte>>)
    requires Buildable(sources) && |slots| == 16 && forall k: nat :: k < 16 ==> slots[k] == SlotBytes(sources, k)
    ensures Entries(slots) && ZeroTail(slots) && Indexed(slots, FilesOf(sources, |sources|), NO_HOLE)
  {
    hide SlotBytes, FilesOf, NameOf, Live, Start, Buildable;
    var files := FilesOf(sources, |sources|);
    forall k: nat | k < 16
      ensures |slots[k]| == 32 && (slots[k][0] == 0 <==> k > |sources|)
      ensures Live(slots[k]) ==> NameOf(slots[k]) in files && files[NameOf(slots[k])].slot == k
    {
      SlotNamed(sources, k);
    }
    forall n | n in files
      ensures files[n].slot < 16 && files[n].slot != NO_HOLE && Live(slots[files[n].slot])
      ensures NameOf(slots[files[n].slot]) == n
    {
      NamedSlot(sources, n);
    }
  }

  lemma SlotNamed(sources: seq<Source>, k: nat)
    requires Buildable(sources)
    ensures var e, files := SlotBytes(sources, k), FilesOf(sources, |sources|);
            && (e[0] == 0 <==> k > |sources|)
            && (Live(e) ==> NameOf(e) in files && files[NameOf(e)].slot == k)
  {
    hide SlotBytes, ImageName, FilesOf, NameOf, Live, ClusterOf, SizeOf, Start, Range;
    SlotFields(sources, k);
    if 1 <= k <= |sources| {
      FileAt(sources, |sources|, k - 1);
      assert FileFor(sources, k - 1).slot == k;
    }
  }

  lemma NamedSlot(sources: seq<Source>, n: Name)
    requires Buildable(sources) && n in FilesOf(sources, |sources|)
    ensures var f := FilesOf(sources, |sources|)[n];
            f.slot < 16 && Live(SlotBytes(sources, f.slot)) && NameOf(SlotBytes(sources, f.slot)) == n
  {
    hide SlotBytes, ImageName, FilesOf, NameOf, Live, ClusterOf, SizeOf, Start, Range;
    var j := SourceOf(sources, |sources|, n);
    SlotFields(sources, j + 1);
  }

  /**
   * The image satisfies the driver's invariant, with exactly the source files in its root directory and both
   * tables equal.
   */
  lemma ImageInv(image: seq<byte>, fat: seq<nat>, sources: seq<Source>)
    requires Built(image, fat, sources)
    ensures Fits(IMAGE, Sectors(image)) && Mirrored(View(IMAGE, Sectors(image)))
    ensures Inv(View(IMAGE, Sectors(image)), 1, 2, [2], FilesOf(sources, |sources|), NO_HOLE)
  {
    hide FatBytes, BootSector, FatCopy, ClusterSectors, Sectors, SlotBytes, Start, FilesOf, FileOk, ImageName, Stored;
    hide Run, RootSlots, Indexed, ZeroTail, Disjoint, Chain, Locs;
    ImageFits(image);
    var v := View(IMAGE, Sectors(image));
    TableView(image, fat, 0);
    TableView(image, fat, 1);
    forall x: nat | 2 <= x < CLUSTER_LIMIT ensures v.clusters[x] == [image[Offset(x)..Offset(x) + 512]] {
      ClusterView(image, x);
    }
    ImageShape(v, fat);
    RootView(image, sources, v);
    ImageIndexed(sources, RootSlots(v, 1, [2]));
    ImageDisjoint(sources);
    ImageRoot(fat);
    var files := FilesOf(sources, |sources|);
    forall n | n in files ensures files[n].slot < 16 && FileOk(v, 1, RootSlots(v, 1, [2])[files[n].slot], files[n]) {
      var j := SourceOf(sources, |sources|, n);
      ImageFile(image, fat, sources, v, j);
    }
  }

  lemma ImageShape(v: Volume, fat: seq<nat>)
    requires |v.fats| == 2 && v.fats[0] == fat && v.fats[1] == fat && |fat| == FAT_ENTRIES
    requires |v.clusters| == CLUSTER_LIMIT
    requires forall x: nat :: 2 <= x < CLUSTER_LIMIT ==> |v.clusters[x]| == 1
    ensures Shape(v, 1) && Mirrored(v)
  {
  }

  lemma ImageRoot(fat: seq<nat>)
    requires |fat| == FAT_ENTRIES && fat[2] == FAT_LAST
    ensures Chain(fat, CLUSTER_LIMIT, 2, [2])
  {
  }

  // Building.

  lemma SpliceApart(s: seq<byte>, at: nat, t: seq<byte>, lo: nat, hi: nat)
    requires at + |t| <= |s| && lo <= hi <= |s| && (hi <= at || at + |t| <= lo)
    ensures Splice(s, at, t)[lo..hi] == s[lo..hi]
  {
  }

  lemma SpliceInside(s: seq<byte>, at: nat, t: seq<byte>, a: nat, b: nat)
    requires at + |t| <= |s| && a <= b <= |t|
    ensures Splice(s, at, t)[at + a..at + b] == t[a..b]
  {
    SubSlice(Splice(s, at, t), at, at + |t|, a, b);
  }

  /** The image before the directory and the tables are written: the data of the first `k` files is there. */
  ghost predicate DataBuilt(image: seq<byte>, sources: seq<Source>, k: nat)
    requires k <= |sources|
  {
    && |image| == IMAGE_BYTES && Booted(image)
    && image[Offset(2)..Offset(3)] == ZeroSector()
    && (forall j :: 0 <= j < k ==> Stored(image, Start(sources, j), sources[j].data))
  }

  lemma StoredApart(image: seq<byte>, at: nat, t: seq<byte>, c: nat, data: seq<byte>)
    requires Stored(image, c, data) && at + |t| <= |image| && (Offset(c) + |data| <= at || at + |t| <= Offset(c))
    ensures Stored(Splice(image, at, t), c, data)
  {
    SpliceApart(image, at, t, Offset(c), Offset(c) + |data|);
  }

  lemma BootedStill(image: seq<byte>, at: nat, t: seq<byte>)
    requires Booted(image) && 3584 <= at && at + |t| <= |image|
    ensures Booted(Splice(image, at, t))
  {
    hide BootSector, FsInfo, Splice;
    SpliceApart(image, at, t, 0, 512);
    SpliceApart(image, at, t, 512, 1024);
    SpliceApart(image, at, t, 3072, 3584);
  }

  /** The data of one more file is written. */
  lemma DataNext(image: seq<byte>, sources: seq<Source>, k: nat)
    requires k < |sources| && Start(sources, |sources|) <= CLUSTER_LIMIT && DataBuilt(image, sources, k)
    ensures Offset(Start(sources, k)) + |sources[k].data| <= |image|
    ensures DataBuilt(Splice(image, Offset(Start(sources, k)), sources[k].data), sources, k + 1)
  {
    hide Start, Stored, ZeroSector, BootSector, Booted;
    var c, data := Start(sources, k), sources[k].data;
    StartMonotone(sources, k, |sources|);
    var image' := Splice(image, Offset(c), data);
    BootedStill(image, Offset(c), data);
    SpliceApart(image, Offset(c), data, Offset(2), Offset(3));
    forall j | 0 <= j < k + 1 ensures Stored(image', Start(sources, j), sources[j].data) {
      if j < k {
        StartMonotone(sources, j, k);
        StoredApart(image, Offset(c), data, Start(sources, j), sources[j].data);
      } else {
        StoredHere(image, c, data);
      }
    }
  }

  lemma StoredHere(image: seq<byte>, c: nat, data: seq<byte>)
    requires Offset(c) + |data| <= |image|
    ensures Stored(Splice(image, Offset(c), data), c, data)
  {
  }

  /** A write below the files keeps them. */
  lemma DataBelow(image: seq<byte>, sources: seq<Source>, at: nat, t: seq<byte>)
    requires at + |t| <= Offset(3) <= |image| && forall j :: 0 <= j < |sources| ==>
                                                   Stored(image, Start(sources, j), sources[j].data)
    ensures forall j :: 0 <= j < |sources| ==> Stored(Splice(image, at, t), Start(sources, j), sources[j].data)
  {
    hide Start, Stored;
    forall j | 0 <= j < |sources| ensures Stored(Splice(image, at, t), Start(sources, j), sources[j].data) {
      StoredApart(image, at, t, Start(sources, j), sources[j].data);
    }
  }

  /** The entries of the label and of the first `k` files. */
  ghost predicate Listed(entries: seq<byte>, sources: seq<Source>, k: nat)
    requires k <= |sources| && Start(sources, |sources|) <= CLUSTER_LIMIT
  {
    |entries| == 32 * (k + 1) && forall i: nat :: i <= k ==> entries[32 * i..32 * i + 32] == SlotEntry(sources, i)
  }

  lemma ListedNext(entries: seq<byte>, sources: seq<Source>, k: nat)
    requires k < |sources| && Start(sources, |sources|) <= CLUSTER_LIMIT && Listed(entries, sources, k)
    ensures Listed(entries + SlotEntry(sources, k + 1), sources, k + 1)
  {
    hide SlotEntry, Start;
    var more := entries + SlotEntry(sources, k + 1);
    forall i: nat | i <= k + 1 ensures more[32 * i..32 * i + 32] == SlotEntry(sources, i) {
      if i <= k {
        assert more[32 * i..32 * i + 32] == entries[32 * i..32 * i + 32];
      }
    }
  }

  /** The root directory is written over cleared bytes. */
  lemma RootWritten(image: seq<byte>, entries: seq<byte>, sources: seq<Source>, k: nat)
    requires |image| == IMAGE_BYTES && image[Offset(2)..Offset(3)] == ZeroSector()
    requires |sources| <= 15 && Start(sources, |sources|) <= CLUSTER_LIMIT && Listed(entries, sources, |sources|)
    requires k < 16
    ensures var image' := Splice(image, Offset(2), entries);
            image'[Offset(2) + 32 * k..Offset(2) + 32 * k + 32] == SlotBytes(sources, k)
  {
    hide SlotEntry, Start, ZeroSector, Splice;
    if k <= |sources| {
      SpliceInside(image, Offset(2), entries, 32 * k, 32 * k + 32);
    } else {
      SpliceApart(image, Offset(2), entries, Offset(2) + 32 * k, Offset(2) + 32 * k + 32);
      RootCleared(image, k);
    }
  }

  lemma RootCleared(image: seq<byte>, k: nat)
    requires |image| == IMAGE_BYTES && image[Offset(2)..Offset(3)] == ZeroSector() && k < 16
    ensures image[Offset(2) + 32 * k..Offset(2) + 32 * k + 32] == seq(32, _ => 0)
  {
    SubSlice(image, Offset(2), Offset(3), 32 * k, 32 * k + 32);
    ZeroSlice(32 * k);
  }

  lemma ZeroSlice(at: nat)
    requires at + 32 <= 512
    ensures ZeroSector()[at..at + 32] == seq(32, _ => 0)
  {
  }

  /** The chain of one file is entered in the table. */
  method LinkRun(fat: seq<nat>, start: nat, n: nat) returns (fat': seq<nat>)
    requires 3 <= start && n >= 1 && start + n <= CLUSTER_LIMIT && |fat| == FAT_ENTRIES
    ensures |fat'| == |fat| && Run(fat', start, start + n)
    ensures forall c :: 0 <= c < |fat| && !(start <= c < start + n) ==> fat'[c] == fat[c]
  {
    fat' := fat;
    var i := 0;
    while i < n
      invariant 0 <= i <= n && |fat'| == |fat|
      invariant forall c :: start <= c < start + i ==> fat'[c] == if c == start + n - 1 then FAT_LAST else c + 1
      invariant forall c :: 0 <= c < |fat| && !(start <= c < start + i) ==> fat'[c] == fat[c]
    {
      fat' := fat'[start + i := if i == n - 1 then FAT_LAST else start + i + 1];
      i := i + 1;
    }
  }

  lemma LinkedNext(fat: seq<nat>, fat': seq<nat>, sources: seq<Source>, k: nat)
    requires k < |sources| && Start(sources, |sources|) <= CLUSTER_LIMIT && Linked(fat, sources, k) && |fat'| == |fat|
    requires Run(fat', Start(sources, k), Start(sources, k + 1))
    requires forall c :: 0 <= c < |fat| && !(Start(sources, k) <= c < Start(sources, k + 1)) ==> fat'[c] == fat[c]
    ensures Linked(fat', sources, k + 1)
  {
    hide Start;
    StartStep(sources, k);
    StartMonotone(sources, k, |sources|);
    forall j | 0 <= j < k + 1 ensures Run(fat', Start(sources, j), Start(sources, j + 1)) {
      if j < k {
        assert Run(fat, Start(sources, j), Start(sources, j + 1));
        StartStep(sources, j);
        StartMonotone(sources, j, k);
      }
    }
  }

  /** The image with its boot sectors, before any file. */
  function Blank(): (image: seq<byte>)
    ensures |image| == IMAGE_BYTES
  {
    var zeros: seq<byte> := seq(IMAGE_BYTES, _ => 0);
    Splice(Splice(Splice(zeros, 0, BootSector()), 512, FsInfo()), 3072, BootSector())
  }

  lemma BlankBuilt(sources: seq<Source>)
    ensures DataBuilt(Blank(), sources, 0)
  {
    hide BootSector, FsInfo, Splice, Stored;
    var zeros: seq<byte> := seq(IMAGE_BYTES, _ => 0);
    var one := Splice(zeros, 0, BootSector());
    var two := Splice(one, 512, FsInfo());
    assert one[..512] == BootSector();
    SpliceApart(one, 512, FsInfo(), 0, 512);
    SpliceApart(two, 3072, BootSector(), 0, 512);
    SpliceApart(two, 3072, BootSector(), 512, 1024);
    SpliceApart(zeros, 0, BootSector(), Offset(2), Offset(3));
    SpliceApart(one, 512, FsInfo(), Offset(2), Offset(3));
    SpliceApart(two, 3072, BootSector(), Offset(2), Offset(3));
    assert zeros[Offset(2)..Offset(3)] == ZeroSector();
  }

  /** `main` of the script: the whole image. */
  method Build(sources: seq<Source>) returns (image: seq<byte>, fat: seq<nat>)
    requires Buildable(sources)
    ensures Built(image, fat, sources)
  {
    hide Blank, BootSector, FatBytes, Splice, DataBuilt, Listed, Linked, Start, Stored, SlotBytes, SlotEntry, ImageName;
    image := Blank();
    BlankBuilt(sources);
    fat := EmptyTable(sources);
    var entries := DirEntry(LABEL, 0x08, 0, 0);
    FirstListed(sources);
    var next, k := 3, 0;
    while k < |sources|
      invariant 0 <= k <= |sources| && next == Start(sources, k)
      invariant DataBuilt(image, sources, k) && Listed(entries, sources, k) && Linked(fat, sources, k)
    {
      var data := sources[k].data;
      var n := Count(data);
      StartStep(sources, k);
      StartMonotone(sources, k, |sources|);
      TableSize(fat, sources, k);
      var longer := LinkRun(fat, next, n);
      LinkedNext(fat, longer, sources, k);
      fat := longer;
      DataNext(image, sources, k);
      image := Splice(image, Offset(next), data);
      SlotOf(sources, k);
      ListedNext(entries, sources, k);
      entries := entries + DirEntry(ImageName(sources[k].name), 0x20, next, |data|);
      next := next + n;
      k := k + 1;
    }
    TableSize(fat, sources, k);
    Finished(image, fat, entries, sources);
    image := Splice(image, Offset(2), entries);
    image := Splice(image, 16384, FatBytes(fat));
    image := Splice(image, 540672, FatBytes(fat));
  }

  method EmptyTable(sources: seq<Source>) returns (fat: seq<nat>)
    ensures Linked(fat, sources, 0)
  {
    fat := seq(FAT_ENTRIES, _ => 0);
    fat := fat[0 := FAT_EOC];
    fat := fat[1 := FAT_LAST];
    fat := fat[2 := FAT_LAST];
  }

  lemma FirstListed(sources: seq<Source>)
    requires Start(sources, |sources|) <= CLUSTER_LIMIT
    ensures Listed(DirEntry(LABEL, 0x08, 0, 0), sources, 0) && Start(sources, 0) == 3
  {
    hide DirEntry;
  }

  lemma TableSize(fat: seq<nat>, sources: seq<Source>, k: nat)
    requires k <= |sources| && Linked(fat, sources, k)
    ensures |fat| == FAT_ENTRIES && forall c :: 0 <= c < |fat| ==> fat[c] < TWO28
  {
  }

  lemma SlotOf(sources: seq<Source>, k: nat)
    requires k < |sources| && Start(sources, |sources|) <= CLUSTER_LIMIT
    ensures Start(sources, k) < CLUSTER_LIMIT && |sources[k].data| < TWO32
    ensures SlotEntry(sources, k + 1) ==
            DirEntry(ImageName(sources[k].name), 0x20, Start(sources, k), |sources[k].data|)
  {
    hide Start, DirEntry, ImageName;
    StartMonotone(sources, k, |sources|);
  }

  /** The directory and the tables complete the image. */
  lemma Finished(image: seq<byte>, fat: seq<nat>, entries: seq<byte>, sources: seq<Source>)
    requires Buildable(sources) && DataBuilt(image, sources, |sources|) && Listed(entries, sources, |sources|)
    requires Linked(fat, sources, |sources|)
    ensures |entries| <= 512 && |image| == IMAGE_BYTES && |FatBytes(fat)| == 524288
    ensures Built(Splice(Splice(Splice(image, Offset(2), entries), 16384, FatBytes(fat)), 540672, FatBytes(fat)),
            fat, sources)
  {
    hide BootSector, FatBytes, Splice, Linked, Start, Stored, SlotBytes, SlotEntry, ImageName, ZeroSector, Booted;
    TableSize(fat, sources, |sources|);
    var b := FatBytes(fat);
    var one := Splice(image, Offset(2), entries);
    var two := Splice(one, 16384, b);
    var three := Splice(two, 540672, b);
    BootedStill(image, Offset(2), entries);
    BootedStill(one, 16384, b);
    BootedStill(two, 540672, b);
    DataBelow(image, sources, Offset(2), entries);
    DataBelow(one, sources, 16384, b);
    DataBelow(two, sources, 540672, b);
    SpliceApart(two, 540672, b, 16384, 540672);
    forall k: nat | k < 16 ensures three[Offset(2) + 32 * k..Offset(2) + 32 * k + 32] == SlotBytes(sources, k) {
      RootWritten(image, entries, sources, k);
      SpliceApart(one, 16384, b, Offset(2) + 32 * k, Offset(2) + 32 * k + 32);
      SpliceApart(two, 540672, b, Offset(2) + 32 * k, Offset(2) + 32 * k + 32);
    }
  }
}
