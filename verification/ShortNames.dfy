/** The 8.3 names under which the root directory files its entries. */
module ShortNames {
  import opened Bytes

  const SPACE: byte := 0x20
  const DOT: byte := 0x2E

  /** A file name as the shell passes it: a C string of ASCII characters. */
  predicate AsciiName(name: seq<byte>) {
    forall i :: 0 <= i < |name| ==> 0 < name[i] < 0x80
  }

  function Upper(c: byte): byte {
    if 0x61 <= c <= 0x7A then c - 32 else c
  }

  /** Position of the first dot, the length if there is none. */
  function FirstDot(name: seq<byte>): (d: nat)
    ensures d <= |name|
    ensures d < |name| ==> name[d] == DOT
    ensures forall i :: 0 <= i < d ==> name[i] != DOT
  {
    if name == [] || name[0] == DOT then 0 else 1 + FirstDot(name[1..])
  }

  /** Character `i` of the 8.3 form: base name, then what follows the first dot, padded with spaces. */
  function ShortChar(name: seq<byte>, i: nat): byte {
    var dot := FirstDot(name);
    if i < 8 then if i < dot then Upper(name[i]) else SPACE
    else if dot + 1 + (i - 8) < |name| then Upper(name[dot + 1 + (i - 8)]) else SPACE
  }

  function ShortName(name: seq<byte>): (s: seq<byte>)
    ensures |s| == 11
    ensures forall i :: 0 <= i < 11 ==> s[i] == ShortChar(name, i)
  {
    seq(11, i requires 0 <= i < 11 => ShortChar(name, i))
  }

  /** No ASCII name is filed under a first byte that means "never used" or "deleted". */
  lemma ShortNameVisible(name: seq<byte>)
    requires AsciiName(name)
    ensures ShortName(name)[0] != 0x00 && ShortName(name)[0] != 0xE5
  {
  }

  function UpperAll(name: seq<byte>): (u: seq<byte>)
    ensures |u| == |name|
    ensures forall i :: 0 <= i < |u| ==> u[i] == Upper(name[i])
  {
    seq(|name|, i requires 0 <= i < |name| => Upper(name[i]))
  }

  lemma SameUpper(a: seq<byte>, b: seq<byte>)
    requires UpperAll(a) == UpperAll(b)
    ensures ShortName(a) == ShortName(b)
  {
    assert forall i :: 0 <= i < |a| ==> UpperAll(a)[i] == UpperAll(b)[i];
    assert forall i :: 0 <= i < |a| ==> (a[i] == DOT <==> b[i] == DOT);
    var d, e := FirstDot(a), FirstDot(b);
    assert d == e;
  }

  /** Names that differ only in the case of ASCII letters are the same file. */
  lemma CaseInsensitive(a: seq<byte>, b: seq<byte>)
    requires |a| == |b|
    requires forall i :: 0 <= i < |a| ==>
               || a[i] == b[i]
               || (0x61 <= a[i] <= 0x7A && b[i] == a[i] - 0x20)
               || (0x61 <= b[i] <= 0x7A && a[i] == b[i] - 0x20)
    ensures ShortName(a) == ShortName(b)
  {
    SameUpper(a, b);
  }

  /** No lower-case letter is filed. */
  lemma NoLowerCase(name: seq<byte>)
    ensures forall i :: 0 <= i < 11 ==> !(0x61 <= ShortName(name)[i] <= 0x7A)
  {
    hide FirstDot;
  }

  lemma FirstDotOf(base: seq<byte>, rest: seq<byte>)
    requires DOT !in base && (rest == [] || rest[0] == DOT)
    ensures FirstDot(base + rest) == |base|
  {
    var name := base + rest;
    assert forall i :: 0 <= i < |base| ==> name[i] == base[i];
    assert rest != [] ==> name[|base|] == DOT;
  }

  /**
   * What is filed, character by character: up to eight of the base name and three of what follows the first dot,
   * small letters made capitals, everything else as it is.
   */
  lemma FiledAs(name: seq<byte>, base: seq<byte>, ext: seq<byte>)
    requires DOT !in base && (name == base + [DOT] + ext || (name == base && ext == []))
    ensures var s := ShortName(name);
            && |s| == 11
            && (forall i :: 0 <= i < 8 && i < |base| ==>
                  s[i] == if 0x61 <= base[i] <= 0x7A then base[i] - 0x20 else base[i])
            && (forall i :: |base| <= i < 8 ==> s[i] == 0x20)
            && (forall i :: 8 <= i < 11 && i < 8 + |ext| ==>
                  s[i] == if 0x61 <= ext[i - 8] <= 0x7A then ext[i - 8] - 0x20 else ext[i - 8])
            && (forall i :: 8 + |ext| <= i < 11 ==> s[i] == 0x20)
  {
    FirstDotOf(base, name[|base|..]);
    assert name == base + name[|base|..];
  }

  /** `to_short_name` */
  method ToShortName(name: seq<byte>) returns (out: array<byte>)
    ensures fresh(out) && out[..] == ShortName(name)
  {
    out := new byte[11](_ => SPACE);
    var i := 0;
    while i < |name| && name[i] != DOT && i < 8
      invariant 0 <= i <= 8 && i <= FirstDot(name)
      invariant forall k :: 0 <= k < i ==> out[k] == Upper(name[k])
      invariant forall k :: i <= k < 11 ==> out[k] == SPACE
    {
      out[i] := Upper(name[i]);
      i := i + 1;
    }
    assert forall k :: 0 <= k < 8 ==> out[k] == ShortChar(name, k);
    var dot := FirstDot(name);
    var j := 0;
    while j < 3 && dot < |name| && dot + 1 + j < |name|
      invariant 0 <= j <= 3
      invariant forall k :: 0 <= k < 8 + j ==> out[k] == ShortChar(name, k)
      invariant forall k :: 8 + j <= k < 11 ==> out[k] == SPACE
    {
      out[8 + j] := Upper(name[dot + 1 + j]);
      j := j + 1;
    }
  }
}
