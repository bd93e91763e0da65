/** The ustar reader of the initial ramdisk. A buffer is a sequence of bytes; reading outside it is an overrun. */
module Initrd {
  import opened Bits

  type Byte = b: nat | b < 256

  /** The characters of a C string, without the NUL at its end. */
  type CStr = s: seq<Byte> | 0 !in s

  const BLOCK: nat := 512

  datatype File = File(name: CStr, contents: seq<Byte>)

  /** What memcmp and strcmp find out; Past when they read on behind the buffer. */
  datatype Compared = Same | Differ | Past

  datatype Lookup = Missing | Found(data: seq<Byte>) | Overrun

  // ----- numbers -----

  predicate OctalDigit(b: Byte) {
    48 <= b <= 55
  }

  predicate AllOctal(s: seq<Byte>) {
    forall i :: 0 <= i < |s| ==> OctalDigit(s[i])
  }

  function Pow8(n: nat): (p: nat)
    ensures p > 0
  {
    if n == 0 then 1 else 8 * Pow8(n - 1)
  }

  /** The number that a string of octal digits stands for. */
  function Value(s: seq<Byte>): nat
    requires AllOctal(s)
  {
    if s == [] then 0 else Value(s[..|s| - 1]) * 8 + (s[|s| - 1] - 48)
  }

  /** Where the digits that oct_to_dec uses begin; the first character is never one of them. */
  function DigitsFrom(s: seq<Byte>, i: nat): (k: nat)
    requires i < |s|
    ensures k <= i && AllOctal(s[k + 1..i + 1]) && (k > 0 ==> !OctalDigit(s[k]))
    ensures AllOctal(s[1..i + 1]) ==> k == 0
  {
    if i > 0 && OctalDigit(s[i]) then
      var k := DigitsFrom(s, i - 1);
      assert s[k + 1..i + 1] == s[k + 1..i] + [s[i]];
      assert AllOctal(s[1..i + 1]) ==> AllOctal(s[1..i]) by {
        if AllOctal(s[1..i + 1]) { assert forall j :: 0 <= j < i - 1 ==> s[1..i][j] == s[1..i + 1][j]; }
      }
      k
    else
      assert i > 0 ==> s[1..i + 1][i - 1] == s[i];
      i
  }

  /** What oct_to_dec computes, in 64 bits, on a string that is not empty. */
  function OctToDec(s: seq<Byte>): (n: nat)
    requires s != []
    ensures n < TWO64
  {
    Wrap64(Value(s[DigitsFrom(s, |s| - 1) + 1..]))
  }

  /** A digit in front of others. */
  lemma {:induction false} ValueFront(s: seq<Byte>)
    requires s != [] && AllOctal(s)
    ensures AllOctal(s[1..]) && Value(s) == (s[0] - 48) * Pow8(|s| - 1) + Value(s[1..])
  {
    var n := |s| - 1;
    if n > 0 {
      var t := s[..n];
      ValueFront(t);
      assert s[1..][..n - 1] == t[1..];
      assert s[1..][n - 1] == s[n];
      assert Value(s[1..]) == Value(t[1..]) * 8 + (s[n] - 48);
      assert ((s[0] - 48) * Pow8(n - 1)) * 8 == (s[0] - 48) * Pow8(n) by { MulAssoc(s[0] - 48, Pow8(n - 1)); }
    } else {
      assert s[..0] == [] && s[1..] == [];
    }
  }

  lemma {:induction false} MulAssoc(a: int, b: int)
    ensures (a * b) * 8 == a * (8 * b)
  {}

  lemma {:induction false} ValueBelow(s: seq<Byte>)
    requires AllOctal(s)
    ensures Value(s) < Pow8(|s|)
  {
    if s != [] { ValueBelow(s[..|s| - 1]); }
  }

  /**
   * oct_to_dec drops the first digit: on a string of octal digits it gives the number modulo
   * 8^(length - 1), in 64 bits, so it is right exactly when the number is below that and 2^64.
   */
  lemma {:induction false} OctDropsFirst(s: seq<Byte>)
    requires s != [] && AllOctal(s)
    ensures OctToDec(s) == Wrap64(Value(s) % Pow8(|s| - 1))
    ensures OctToDec(s) == Value(s) <==> Value(s) < Pow8(|s| - 1) && Value(s) < TWO64
  {
    hide Value, Pow8;
    var n := |s| - 1;
    ValueFront(s);
    ValueBelow(s[1..]);
    DigitsAll(s);
    ModIs(s[0] - 48, Pow8(n), Value(s[1..]));
  }

  lemma {:induction false} DigitsAll(s: seq<Byte>)
    requires s != [] && AllOctal(s)
    ensures AllOctal(s[1..]) && OctToDec(s) == Wrap64(Value(s[1..]))
  {
    hide Value, Wrap64;
    assert s[1..|s| - 1 + 1] == s[1..];
    assert DigitsFrom(s, |s| - 1) == 0;
  }

  lemma {:induction false} ModIs(q: nat, m: nat, r: nat)
    requires r < m
    ensures (q * m + r) % m == r && (q * m + r < m <==> q == 0) && r <= q * m + r
  {
    ModUnique(q * m + r, m, q, r);
    if q > 0 { MulMono(1, q, m); }
  }

  lemma {:induction false} DigitStep(s: seq<Byte>, i: nat)
    requires 0 < i < |s| && OctalDigit(s[i]) && AllOctal(s[i + 1..])
    ensures AllOctal(s[i..]) && Value(s[i..]) == Value(s[i + 1..]) + (s[i] - 48) * Pow8(|s| - 1 - i)
    ensures DigitsFrom(s, i) == DigitsFrom(s, i - 1)
  {
    assert s[i..] == [s[i]] + s[i + 1..];
    ValueFront(s[i..]);
    assert s[i..][1..] == s[i + 1..];
  }

  /** Sums and products in 64 bits are those of the numbers, cut off once. */
  lemma {:induction false} WrapStep(a: nat, b: nat, d: nat)
    ensures Wrap64(Wrap64(a) + d * Wrap64(b)) == Wrap64(a + d * b)
    ensures Wrap64(Wrap64(b) * 8) == Wrap64(8 * b)
  {
    var x, y := a / TWO64, b / TWO64;
    Remainders(Wrap64(a) + d * Wrap64(b), x + d * y);
    assert d * b == d * (y * TWO64) + d * Wrap64(b);
    assert Wrap64(a) + d * Wrap64(b) + (x + d * y) * TWO64 == a + d * b;
    Remainders(Wrap64(b) * 8, 8 * y);
    assert Wrap64(b) * 8 + 8 * y * TWO64 == 8 * b;
  }

  lemma {:induction false} Remainders(r: nat, q: nat)
    ensures Wrap64(r + q * TWO64) == Wrap64(r)
  {
    ModUnique(r + q * TWO64, TWO64, r / TWO64 + q, r % TWO64);
  }

  /** oct_to_dec on a string that is not empty. */
  method OctToDecLoop(s: seq<Byte>) returns (integer: nat)
    requires s != []
    ensures integer == OctToDec(s)
  {
    hide Value, DigitsFrom, Wrap64, AllOctal;
    var multiplier: nat := 1;
    var i := |s| - 1;
    NoDigits(s);
    integer := 0;
    while i > 0 && OctalDigit(s[i])
      invariant 0 <= i < |s| && AllOctal(s[i + 1..])
      invariant integer == Wrap64(Value(s[i + 1..])) && multiplier == Wrap64(Pow8(|s| - 1 - i))
      invariant DigitsFrom(s, |s| - 1) == DigitsFrom(s, i)
    {
      DigitStep(s, i);
      var digit: nat := s[i] - 48;
      WrapStep(Value(s[i + 1..]), Pow8(|s| - 1 - i), digit);
      integer := Wrap64(integer + digit * multiplier);
      multiplier := Wrap64(multiplier * 8);
      i := i - 1;
    }
    LastDigit(s, i);
  }

  lemma {:induction false} NoDigits(s: seq<Byte>)
    requires s != []
    ensures AllOctal(s[|s| - 1 + 1..]) && Wrap64(Value(s[|s| - 1 + 1..])) == 0 && Wrap64(Pow8(|s| - 1 - (|s| - 1))) == 1
  {
    assert s[|s| - 1 + 1..] == [];
  }

  lemma {:induction false} LastDigit(s: seq<Byte>, i: nat)
    requires i < |s| && (i > 0 ==> !OctalDigit(s[i]))
    ensures DigitsFrom(s, i) == i
  {}

  // ----- strings in the buffer -----

  /** The C string at an offset; one that does not end in the buffer is cut off at its end. */
  function CString(buf: seq<Byte>, off: nat): (s: seq<Byte>)
    decreases |buf| - off
  {
    if off >= |buf| || buf[off] == 0 then [] else [buf[off]] + CString(buf, off + 1)
  }

  lemma {:induction false} CStringIs(buf: seq<Byte>, off: nat, s: seq<Byte>)
    requires off + |s| < |buf| && buf[off..off + |s|] == s && 0 !in s && buf[off + |s|] == 0
    ensures CString(buf, off) == s
    decreases |s|
  {
    if s != [] {
      assert buf[off..off + |s|][0] == buf[off] == s[0];
      assert buf[off + 1..off + 1 + |s[1..]|] == s[1..];
      CStringIs(buf, off + 1, s[1..]);
    }
  }

  /** The string at the offset ends inside the buffer. */
  predicate Terminated(buf: seq<Byte>, off: nat) {
    off + |CString(buf, off)| < |buf|
  }

  /** Byte by byte, up to the first difference. */
  function Compare(buf: seq<Byte>, off: nat, s: seq<Byte>): (r: Compared)
    ensures r == Same <==> s == [] || (off + |s| <= |buf| && buf[off..off + |s|] == s)
    decreases |s|
  {
    if s == [] then Same
    else if off >= |buf| then Past
    else if buf[off] != s[0] then Differ
    else
      var r := Compare(buf, off + 1, s[1..]);
      assert off + |s| <= |buf| ==> buf[off..off + |s|] == [buf[off]] + buf[off + 1..off + 1 + |s[1..]|];
      assert s == [s[0]] + s[1..];
      r
  }

  /** strcmp of a name in the buffer. */
  lemma {:induction false} CompareName(buf: seq<Byte>, off: nat, name: CStr, path: CStr)
    requires off + |name| < |buf| && buf[off..off + |name|] == name && buf[off + |name|] == 0
    ensures Compare(buf, off, path + [0]) == if name == path then Same else Differ
    decreases |name|
  {
    assert name != [] ==> buf[off..off + |name|][0] == buf[off] == name[0];
    if name != [] && path != [] && name[0] == path[0] {
      assert (path + [0])[1..] == path[1..] + [0];
      assert buf[off + 1..off + 1 + |name[1..]|] == name[1..];
      assert name == [name[0]] + name[1..] && path == [path[0]] + path[1..];
      CompareName(buf, off + 1, name[1..], path[1..]);
    } else if name == [] && path == [] {
      assert (path + [0])[1..] == [];
    }
  }

  // ----- archives -----

  const USTAR: seq<Byte> := [117, 115, 116, 97, 114]

  /** Blocks for a number of bytes, in bytes. */
  function Padded(n: nat): (p: nat)
    ensures n <= p < n + BLOCK && p % BLOCK == 0
  {
    (n + BLOCK - 1) / BLOCK * BLOCK
  }

  /** A header at an offset: name at 0, size in 11 octal digits at 124, signature at 257; other fields are free. */
  ghost predicate HeaderAt(buf: seq<Byte>, off: nat, f: File) {
    && off + BLOCK <= |buf|
    && |f.name| < 100
    && buf[off..off + |f.name|] == f.name && buf[off + |f.name|] == 0
    && AllOctal(buf[off + 124..off + 135]) && Value(buf[off + 124..off + 135]) == |f.contents| && buf[off + 135] == 0
    && buf[off + 257..off + 262] == USTAR
  }

  /** The files one after the other, each padded to whole blocks, then a block of zeros. */
  ghost predicate ArchiveAt(buf: seq<Byte>, off: nat, files: seq<File>)
    decreases |files|
  {
    if files == [] then
      off + BLOCK <= |buf| && forall i :: off <= i < off + BLOCK ==> buf[i] == 0
    else
      && HeaderAt(buf, off, files[0])
      && off + BLOCK + Padded(|files[0].contents|) <= |buf|
      && buf[off + BLOCK..off + BLOCK + |files[0].contents|] == files[0].contents
      && ArchiveAt(buf, off + BLOCK + Padded(|files[0].contents|), files[1..])
  }

  /** The contents of the first file with the name. */
  function FirstNamed(files: seq<File>, path: CStr): (r: Lookup)
    ensures r == Missing <==> forall i :: 0 <= i < |files| ==> files[i].name != path
    ensures r != Overrun
  {
    if files == [] then Missing
    else if files[0].name == path then Found(files[0].contents)
    else FirstNamed(files[1..], path)
  }

  // ----- the search -----

  /** The search from a header on. */
  function Walk(buf: seq<Byte>, entry: nat, path: CStr): (r: Lookup)
    decreases |buf| - entry
  {
    if entry > |buf| then Missing
    else
      match Compare(buf, entry + 257, USTAR)
      case Past => Overrun
      case Differ => Missing
      case Same =>
        var field, name := CString(buf, entry + 124), Compare(buf, entry, path + [0]);
        if name == Past || !Terminated(buf, entry + 124) || field == [] then Overrun
        else if name == Same then
          if entry + BLOCK + OctToDec(field) > |buf| then Overrun
          else Found(buf[entry + BLOCK..entry + BLOCK + OctToDec(field)])
        else Walk(buf, entry + Padded(OctToDec(field)) + BLOCK, path)
  }

  /**
   * A buffer that ends inside a header whose signature is wrong where it still lies in the buffer:
   * no file, and no overrun.
   */
  lemma {:induction false} ShortBuffer(path: CStr)
    ensures Walk(Zeros(300), 0, path) == Missing && Walk(Zeros(200), 0, path) == Overrun
  {}

  lemma {:induction false} HeaderReads(buf: seq<Byte>, off: nat, f: File)
    requires HeaderAt(buf, off, f)
    ensures Compare(buf, off + 257, USTAR) == Same && Terminated(buf, off + 124)
    ensures CString(buf, off + 124) != [] && OctToDec(CString(buf, off + 124)) == |f.contents| % Pow8(10)
    ensures OctToDec(CString(buf, off + 124)) == |f.contents| <==> |f.contents| < Pow8(10)
  {
    hide Compare;
    var digits := buf[off + 124..off + 135];
    assert 0 !in digits by { assert forall i :: 0 <= i < |digits| ==> OctalDigit(digits[i]); }
    CStringIs(buf, off + 124, digits);
    OctDropsFirst(digits);
    SmallPower();
  }

  lemma {:induction false} SmallPower()
    ensures Pow8(10) == 0x4000_0000
  {}

  lemma {:induction false} WrongSignature(buf: seq<Byte>, off: nat)
    requires off < |buf| && buf[off] == 0
    ensures Compare(buf, off, USTAR) == Differ
  {}

  lemma {:induction false} HeaderName(buf: seq<Byte>, off: nat, f: File, path: CStr)
    requires HeaderAt(buf, off, f)
    ensures Compare(buf, off, path + [0]) == if f.name == path then Same else Differ
  {
    hide Compare, Value;
    CompareName(buf, off, f.name, path);
  }

  /**
   * On any archive with sizes below 8^10 the search finds the first file with the name, whole,
   * or nothing if there is none, and reads nothing outside the buffer.
   */
  lemma {:induction false} WalkFinds(buf: seq<Byte>, off: nat, files: seq<File>, path: CStr)
    requires ArchiveAt(buf, off, files) && forall i :: 0 <= i < |files| ==> |files[i].contents| < Pow8(10)
    ensures Walk(buf, off, path) == FirstNamed(files, path)
    decreases |files|
  {
    hide CString, OctToDec, Pow8, Terminated, Compare, HeaderAt, Padded;
    if files == [] {
      WrongSignature(buf, off + 257);
    } else {
      HeaderReads(buf, off, files[0]);
      HeaderName(buf, off, files[0], path);
      if files[0].name != path {
        WalkFinds(buf, off + BLOCK + Padded(|files[0].contents|), files[1..], path);
      }
    }
  }

  /** The size that comes out of a header. */
  function SizeRead(n: nat): (m: nat)
    ensures m <= n
  {
    ModLess(n, Pow8(10));
    n % Pow8(10)
  }

  /** The bound is exact: a file comes back whole if and only if its size is below 8^10. */
  lemma {:induction false} WholeIffSmall(buf: seq<Byte>, off: nat, f: File)
    requires ArchiveAt(buf, off, [f])
    ensures Walk(buf, off, f.name) == Found(f.contents) <==> |f.contents| < Pow8(10)
    ensures Walk(buf, off, f.name) == Found(f.contents[..SizeRead(|f.contents|)])
  {
    hide CString, OctToDec, Pow8, Terminated, Compare;
    HeaderReads(buf, off, f);
    HeaderName(buf, off, f, f.name);
    var n, m := |f.contents|, SizeRead(|f.contents|);
    var data := buf[off + BLOCK..off + BLOCK + n];
    assert buf[off + BLOCK..off + BLOCK + m] == data[..m];
  }

  lemma {:induction false} ModLess(n: nat, m: nat)
    requires m > 0
    ensures n % m <= n
  {}

  /**
   * initrd_read_file: the size of the file, 0 when there is none, and the bytes copied. It ends
   * on every buffer. ok is false when it reads outside the buffer.
   */
  method ReadFile(buf: seq<Byte>, path: CStr) returns (ok: bool, size: nat, data: seq<Byte>)
    ensures ok <==> Walk(buf, 0, path) != Overrun
    ensures ok ==> size == |data| && data == (if Walk(buf, 0, path).Found? then Walk(buf, 0, path).data else [])
  {
    hide CString, OctToDec, Padded, Terminated, Compare;
    var block, entry := 0, 0;
    ok, size, data := true, 0, [];
    while true
      invariant entry == block * BLOCK && Walk(buf, 0, path) == Walk(buf, entry, path)
      decreases |buf| + BLOCK - entry
    {
      if entry > |buf| { return; }
      var signature := Compare(buf, entry + 257, USTAR);
      if signature == Past { ok := false; return; }
      if signature != Same { return; }
      var name := Compare(buf, entry, path + [0]);
      if name == Past || !Terminated(buf, entry + 124) || CString(buf, entry + 124) == [] { ok := false; return; }
      if name == Same { break; }
      var fileSize := OctToDecLoop(CString(buf, entry + 124));
      block := block + (fileSize + BLOCK - 1) / BLOCK;
      block := block + 1;
      assert block * BLOCK == entry + Padded(fileSize) + BLOCK by { PaddedIs(fileSize); }
      entry := block * BLOCK;
    }
    size := OctToDecLoop(CString(buf, entry + 124));
    var start := (block + 1) * BLOCK;
    if start + size > |buf| { ok := false; return; }
    data := buf[start..start + size];
  }

  lemma {:induction false} PaddedIs(n: nat)
    ensures (n + BLOCK - 1) / BLOCK * BLOCK == Padded(n)
  {}

  /** initrd_read_file on an archive: exactly the contents of the first file of that name, and size 0 for none. */
  method ReadArchive(buf: seq<Byte>, path: CStr, ghost files: seq<File>) returns (ok: bool, size: nat, data: seq<Byte>)
    requires ArchiveAt(buf, 0, files) && forall i :: 0 <= i < |files| ==> |files[i].contents| < Pow8(10)
    ensures ok && size == |data|
    ensures data == (if FirstNamed(files, path).Found? then FirstNamed(files, path).data else [])
    ensures size == 0 <==> FirstNamed(files, path) == Missing || FirstNamed(files, path) == Found([])
  {
    hide ArchiveAt, Walk;
    WalkFinds(buf, 0, files, path);
    ok, size, data := ReadFile(buf, path);
  }

  // ----- laying an archive out -----

  function Zeros(n: nat): (z: seq<Byte>)
    ensures |z| == n && forall i :: 0 <= i < n ==> z[i] == 0
  {
    seq(n, _ => 0)
  }

  function Digits(n: nat, k: nat): (d: seq<Byte>)
    ensures |d| == k && AllOctal(d)
  {
    if k == 0 then [] else Digits(n / 8, k - 1) + [48 + n % 8]
  }

  lemma {:induction false} DigitsValue(n: nat, k: nat)
    requires n < Pow8(k)
    ensures Value(Digits(n, k)) == n
  {
    if k > 0 {
      DigitsValue(n / 8, k - 1);
      var d := Digits(n, k);
      assert d[..k - 1] == Digits(n / 8, k - 1) && d[k - 1] == 48 + n % 8;
    }
  }

  predicate Storable(f: File) {
    |f.name| < 100 && |f.contents| < Pow8(11)
  }

  /** The parts of a header block up to the size, and from there on. */
  function Header(f: File): (h: seq<Byte>)
    requires Storable(f)
    ensures |h| == BLOCK
  {
    f.name + Zeros(124 - |f.name|) + Digits(|f.contents|, 11) + Zeros(122) + USTAR + Zeros(250)
  }

  function Layout(files: seq<File>): (buf: seq<Byte>)
    requires forall i :: 0 <= i < |files| ==> Storable(files[i])
  {
    if files == [] then Zeros(BLOCK)
    else
      var data := files[0].contents;
      Header(files[0]) + data + Zeros(Padded(|data|) - |data|) + Layout(files[1..])
  }

  lemma {:induction false} HeaderParts(f: File)
    requires Storable(f)
    ensures var h := Header(f);
            && h[..|f.name|] == f.name && h[|f.name|] == 0 && h[124..135] == Digits(|f.contents|, 11) && h[135] == 0
            && h[257..262] == USTAR
  {
    hide Digits, Pow8;
  }

  lemma {:induction false} SliceOf(buf: seq<Byte>, off: nat, n: nat, i: nat, j: nat)
    requires off + n <= |buf| && i <= j <= n
    ensures buf[off..off + n][i..j] == buf[off + i..off + j]
  {
    var a, b := buf[off..off + n][i..j], buf[off + i..off + j];
    assert forall k :: 0 <= k < j - i ==> a[k] == buf[off + i + k] == b[k];
  }

  /** What is in a header block is in the buffer at the block's place. */
  lemma {:induction false} HeaderPlaced(buf: seq<Byte>, off: nat, f: File)
    requires Storable(f) && off + BLOCK <= |buf| && buf[off..off + BLOCK] == Header(f)
    ensures HeaderAt(buf, off, f)
  {
    hide Digits, Pow8, Header, Value;
    var h := Header(f);
    HeaderParts(f);
    DigitsValue(|f.contents|, 11);
    assert buf[off..off + |f.name|] == h[..|f.name|];
    assert buf[off + |f.name|] == h[|f.name|] && buf[off + 135] == h[135];
    SliceOf(buf, off, BLOCK, 124, 135);
    SliceOf(buf, off, BLOCK, 257, 262);
  }

  /** Every list of storable files has an archive: its layout, wherever it starts. */
  lemma {:induction false} LayoutIsArchive(pre: seq<Byte>, files: seq<File>)
    requires forall i :: 0 <= i < |files| ==> Storable(files[i])
    ensures ArchiveAt(pre + Layout(files), |pre|, files)
    decreases |files|
  {
    hide Pow8, Header, HeaderAt;
    var buf := pre + Layout(files);
    if files != [] {
      var f, rest := files[0], Layout(files[1..]);
      var h, pad := Header(f), Zeros(Padded(|f.contents|) - |f.contents|);
      assert buf == pre + h + f.contents + pad + rest;
      assert buf[|pre|..|pre| + BLOCK] == h;
      HeaderPlaced(buf, |pre|, f);
      assert buf[|pre| + BLOCK..|pre| + BLOCK + |f.contents|] == f.contents;
      LayoutIsArchive(pre + h + f.contents + pad, files[1..]);
    }
  }

  /** Reading back from a layout: the first file of the name, whole. */
  lemma {:induction false} LayoutReadBack(files: seq<File>, path: CStr)
    requires forall i :: 0 <= i < |files| ==> Storable(files[i]) && |files[i].contents| < Pow8(10)
    ensures Walk(Layout(files), 0, path) == FirstNamed(files, path)
  {
    hide ArchiveAt, Walk, Layout, Pow8;
    LayoutIsArchive([], files);
    assert [] + Layout(files) == Layout(files);
    WalkFinds(Layout(files), 0, files, path);
  }
}
