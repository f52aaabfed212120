/**
  Text as the screen shows it: hexadecimal and decimal numerals, byte dumps, cells
  and memory type names, with the parsers that undo them.
 */
module Text {
  import opened Words
  import opened PhysicalMemory
  import opened AccessPolicy

  const HEX_CHARS: string := "0123456789ABCDEF"

  function HexDigit(n: nat): char
    requires n < 16
  {
    HEX_CHARS[n]
  }

  predicate IsHexDigit(c: char) {
    '0' <= c <= '9' || 'a' <= c <= 'f' || 'A' <= c <= 'F'
  }

  function HexDigitValue(c: char): (r: nat)
    requires IsHexDigit(c)
    ensures r < 16
  {
    if '0' <= c <= '9' then c as int - '0' as int
    else if 'a' <= c <= 'f' then c as int - 'a' as int + 10
    else c as int - 'A' as int + 10
  }

  predicate AllHex(s: string) {
    forall i :: 0 <= i < |s| ==> IsHexDigit(s[i])
  }

  /** The number a string of hexadecimal digits denotes, most significant digit first. */
  function ParseHex(s: string): nat
    requires AllHex(s)
  {
    if s == "" then 0 else 16 * ParseHex(s[..|s| - 1]) + HexDigitValue(s[|s| - 1])
  }

  /** The last `digits` hexadecimal digits of a number. */
  function HexText(v: nat, digits: nat): (s: string)
    ensures |s| == digits && AllHex(s) && '\0' !in s
  {
    if digits == 0 then "" else HexText(v / 16, digits - 1) + [HexDigit(v % 16)]
  }

  function Pow16(n: nat): (r: nat)
    ensures r >= 1
  {
    if n == 0 then 1 else 16 * Pow16(n - 1)
  }

  lemma HexDigitRoundTrip(n: nat)
    requires n < 16
    ensures IsHexDigit(HexDigit(n)) && HexDigitValue(HexDigit(n)) == n
  {
  }

  /** Parsing a fixed-width numeral gives the number modulo 16^width. */
  lemma {:induction false} ParseHexText(v: nat, digits: nat)
    ensures ParseHex(HexText(v, digits)) == v % Pow16(digits)
  {
    if digits > 0 {
      ParseHexText(v / 16, digits - 1);
      HexDigitRoundTrip(v % 16);
      assert HexText(v, digits)[..digits - 1] == HexText(v / 16, digits - 1);
      Mod16Step(v, Pow16(digits - 1));
    }
  }

  /** Numerals are printed with capital letters. */
  lemma HexTextIsUpperCase(v: nat, digits: nat, i: nat)
    requires i < digits
    ensures var c := HexText(v, digits)[i]; '0' <= c <= '9' || 'A' <= c <= 'F'
  {
    HexTextAt(v, digits, i);
    assert forall n :: 0 <= n < 16 ==> '0' <= HEX_CHARS[n] <= '9' || 'A' <= HEX_CHARS[n] <= 'F';
  }

  lemma Mod16Step(v: nat, m: nat)
    requires m > 0
    ensures v % (16 * m) == v % 16 + 16 * ((v / 16) % m)
  {
    var q, r := (v / 16) / m, (v / 16) % m;
    assert v / 16 == m * q + r;
    assert v == (16 * m) * q + (16 * r + v % 16);
    DivisionUnique(v, 16 * m, q, 16 * r + v % 16);
  }

  lemma {:induction false} ParseHexBound(s: string)
    requires AllHex(s)
    ensures ParseHex(s) < Pow16(|s|)
  {
    if s != "" {
      ParseHexBound(s[..|s| - 1]);
    }
  }

  lemma {:induction false} Pow16IsPow256(n: nat)
    ensures Pow16(2 * n) == Pow256(n)
  {
    if n > 0 {
      Pow16IsPow256(n - 1);
      assert Pow16(2 * n) == 16 * (16 * Pow16(2 * n - 2));
    }
  }

  lemma {:induction false} Pow16Monotone(i: nat, j: nat)
    requires i <= j
    ensures Pow16(i) <= Pow16(j)
  {
    if i < j {
      Pow16Monotone(i, j - 1);
    }
  }

  // -------------------------------------------------------------------- bytes

  function HexByte(b: byte): (s: string)
    ensures |s| == 2 && AllHex(s) && '\0' !in s
  {
    HexText(b, 2)
  }

  lemma ParseHexByte(b: byte)
    ensures ParseHex(HexByte(b)) == b
  {
    ParseHexText(b, 2);
    assert Pow16(2) == 256;
    SmallMod(b, 256);
  }

  /** The bytes of a value, lowest first. */
  function ValueBytes(value: nat, width: nat): (bs: seq<byte>)
    ensures |bs| == width
  {
    if width == 0 then [] else [value % 256] + ValueBytes(value / 256, width - 1)
  }

  /** A cell: the bytes of one access, highest offset first. */
  function CellDigits(bs: seq<byte>): (s: string)
    ensures |s| == 2 * |bs| && AllHex(s) && '\0' !in s
  {
    if bs == [] then "" else HexByte(bs[|bs| - 1]) + CellDigits(bs[..|bs| - 1])
  }

  lemma {:induction false} CellDigitsPrepend(b: byte, bs: seq<byte>)
    ensures CellDigits([b] + bs) == CellDigits(bs) + HexByte(b)
  {
    if bs == [] {
    } else {
      var n := |bs|;
      assert ([b] + bs)[..n] == [b] + bs[..n - 1];
      CellDigitsPrepend(b, bs[..n - 1]);
    }
  }

  /** `value >> (8 * n)`. */
  function ShiftBytes(value: nat, n: nat): nat {
    if n == 0 then value else ShiftBytes(value / 256, n - 1)
  }

  /** `value >> (4 * n)`. */
  function ShiftNibbles(value: nat, n: nat): nat {
    if n == 0 then value else ShiftNibbles(value / 16, n - 1)
  }

  lemma {:induction false} ShiftNibblesStep(value: nat, n: nat)
    ensures ShiftNibbles(value, n + 1) == ShiftNibbles(value, n) / 16
  {
    if n > 0 {
      ShiftNibblesStep(value / 16, n - 1);
    }
  }

  lemma {:induction false} HexTextAt(value: nat, digits: nat, i: nat)
    requires i < digits
    ensures HexText(value, digits)[i] == HexDigit(ShiftNibbles(value, digits - 1 - i) % 16)
  {
    if i < digits - 1 {
      HexTextAt(value / 16, digits - 1, i);
    }
  }

  lemma {:induction false} ValueByteAt(value: nat, width: nat, k: nat)
    requires k < width
    ensures ValueBytes(value, width)[k] == ShiftBytes(value, k) % 256
  {
    if k > 0 {
      ValueByteAt(value / 256, width - 1, k - 1);
    }
  }

  lemma {:induction false} ValueBytesOfLoad(mem: seq<byte>, address: nat, width: nat)
    requires address + width <= |mem|
    ensures ValueBytes(Load(mem, address, width), width) == mem[address..address + width]
    decreases width
  {
    if width > 0 {
      var v := Load(mem, address, width);
      assert v % 256 == mem[address] && v / 256 == Load(mem, address + 1, width - 1);
      ValueBytesOfLoad(mem, address + 1, width - 1);
      assert mem[address..address + width] == [mem[address]] + mem[address + 1..address + width];
    } else {
      assert mem[address..address + width] == [];
    }
  }

  lemma ParseHexSnoc(s: string, c: char)
    requires AllHex(s) && IsHexDigit(c)
    ensures AllHex(s + [c]) && ParseHex(s + [c]) == 16 * ParseHex(s) + HexDigitValue(c)
  {
    assert (s + [c])[..|s|] == s;
  }

  lemma Shift16(a: nat, p: nat, b: nat, d: nat)
    ensures 16 * (a * p + b) + d == a * (16 * p) + (16 * b + d)
  {
  }

  lemma {:induction false} ParseHexConcat(s: string, t: string)
    requires AllHex(s) && AllHex(t)
    ensures AllHex(s + t) && ParseHex(s + t) == ParseHex(s) * Pow16(|t|) + ParseHex(t)
  {
    if t == "" {
      assert s + t == s;
    } else {
      var r, c := t[..|t| - 1], t[|t| - 1];
      ParseHexConcat(s, r);
      assert s + t == (s + r) + [c];
      ParseHexSnoc(s + r, c);
      Shift16(ParseHex(s), Pow16(|r|), ParseHex(r), HexDigitValue(c));
    }
  }

  /** Two more digits shift a number by one byte. */
  lemma AppendedByte(s: string, b: byte)
    requires AllHex(s)
    ensures ParseHex(s + HexByte(b)) == 256 * ParseHex(s) + b
  {
    assert Pow16(2) == 256;
    hide Pow16;
    hide ParseHex;
    hide HexByte;
    ParseHexConcat(s, HexByte(b));
    ParseHexByte(b);
  }

  /** Reading the digits of a cell gives back the value of the cell. */
  lemma {:induction false} ParseCellDigits(value: nat, width: nat)
    ensures ParseHex(CellDigits(ValueBytes(value, width))) == value % Pow256(width)
  {
    if width > 0 {
      var bs := ValueBytes(value / 256, width - 1);
      assert ValueBytes(value, width) == [value % 256] + bs && Pow256(width) == 256 * Pow256(width - 1);
      hide HexByte;
      hide ParseHex;
      hide CellDigits;
      hide Pow256;
      hide ValueBytes;
      ParseCellDigits(value / 256, width - 1);
      CellDigitsPrepend(value % 256, bs);
      AppendedByte(CellDigits(bs), value % 256);
      ModStep(value, Pow256(width - 1));
    }
  }

  /** The offsets of the bytes one cell covers, as the header row names them. */
  function OffsetBytes(offset: nat, width: nat): (bs: seq<byte>)
    ensures |bs| == width
    ensures forall k :: 0 <= k < width ==> bs[k] == (offset + k) % 256
  {
    seq(width, k requires 0 <= k < width => (offset + k) % 256)
  }

  /** The pair of digits of byte `k` of a cell sits at column 2(w - 1 - k), whatever the cell shows. */
  lemma {:induction false} CellDigitsAt(bs: seq<byte>, k: nat)
    requires k < |bs|
    ensures CellDigits(bs)[2 * (|bs| - 1 - k)..2 * (|bs| - k)] == HexByte(bs[k])
  {
    var n := |bs|;
    if k < n - 1 {
      CellDigitsAt(bs[..n - 1], k);
      var t := CellDigits(bs[..n - 1]);
      assert CellDigits(bs) == HexByte(bs[n - 1]) + t;
      assert CellDigits(bs)[2 * (n - 1 - k)..2 * (n - k)] == t[2 * (n - 2 - k)..2 * (n - 1 - k)];
    }
  }

  /** The digits of a wide read at byte `k` are the digits of a one-byte read of that byte. */
  lemma WideDigitsAt(mem: seq<byte>, address: nat, width: nat, k: nat)
    requires address + width <= |mem| && k < width
    ensures var i := 2 * (width - 1 - k);
            CellDigits(mem[address..address + width])[i..i + 2] == CellDigits(mem[address + k..address + k + 1])
  {
    var bytes, one := mem[address..address + width], mem[address + k..address + k + 1];
    CellDigitsAt(bytes, k);
    assert 2 * (width - 1 - k) + 2 == 2 * (width - k);
    assert |one| == 1 && one[0] == bytes[k];
    CellDigitsAt(one, 0);
    var digits := CellDigits(one);
    assert digits[0..2] == digits;
  }

  // -------------------------------------------------------------- byte dumps

  function Spaced(bs: seq<byte>): (s: string)
    ensures |s| == 3 * |bs| && '\0' !in s
  {
    if bs == [] then "" else Spaced(bs[..|bs| - 1]) + HexByte(bs[|bs| - 1]) + " "
  }

  lemma SpacedStep(bs: seq<byte>, i: nat)
    requires i < |bs|
    ensures Spaced(bs[..i + 1]) == Spaced(bs[..i]) + HexByte(bs[i]) + " "
  {
    assert bs[..i + 1][..i] == bs[..i];
  }

  /** Bytes separated by single spaces. */
  function DumpText(bs: seq<byte>): (s: string)
    ensures '\0' !in s
    ensures |s| == if |bs| == 0 then 0 else 3 * |bs| - 1
  {
    if bs == [] then "" else Spaced(bs)[..3 * |bs| - 1]
  }

  /** Decode a byte dump: pairs of digits with one space between them. */
  function ParseDump(s: string): seq<int> {
    if |s| < 2 || !AllHex(s[..2]) then []
    else [ParseHex(s[..2])] + (if |s| < 3 || s[2] != ' ' then [] else ParseDump(s[3..]))
  }

  lemma {:induction false} SpacedHead(bs: seq<byte>)
    requires bs != []
    ensures Spaced(bs) == HexByte(bs[0]) + " " + Spaced(bs[1..])
  {
    if |bs| > 1 {
      var n := |bs|;
      SpacedHead(bs[..n - 1]);
      assert bs[..n - 1][1..] == bs[1..][..n - 2];
      assert Spaced(bs) == HexByte(bs[0]) + " " + Spaced(bs[1..][..n - 2]) + HexByte(bs[n - 1]) + " ";
    }
  }

  /** A dump starts with its first byte; the dump of the others follows after a space. */
  lemma DumpStarts(bs: seq<byte>)
    requires bs != []
    ensures DumpText(bs)[..2] == HexByte(bs[0])
    ensures |bs| > 1 ==> DumpText(bs)[2] == ' ' && DumpText(bs)[3..] == DumpText(bs[1..])
  {
    hide HexByte;
    SpacedHead(bs);
    var head, rest, n := HexByte(bs[0]) + " ", Spaced(bs[1..]), 3 * |bs| - 1;
    hide Spaced;
    assert DumpText(bs) == (head + rest)[..n];
    if |bs| > 1 {
      assert (head + rest)[..n] == head + rest[..n - 3];
    }
  }

  /** Decoding recovers the dumped bytes. */
  lemma {:induction false} ParseDumpText(bs: seq<byte>)
    ensures ParseDump(DumpText(bs)) == bs
  {
    hide DumpText;
    hide HexByte;
    if bs != [] {
      ParseDumpText(bs[1..]);
      DumpStarts(bs);
      ParseHexByte(bs[0]);
    }
  }

  // ---------------------------------------------------------------- addresses

  function AddressText(address: u64): (s: string)
    ensures |s| == 18 && '\0' !in s
  {
    "0x" + HexText(address, 16)
  }

  lemma AddressTextRoundTrip(address: u64)
    ensures ParseHex(AddressText(address)[2..]) == address
  {
    var digits := HexText(address, 16);
    assert AddressText(address)[2..] == digits;
    assert ParseHex(digits) == address by {
      ParseHexText(address, 16);
      Pow16IsPow256(8);
      Pow256Values();
      SmallMod(address, TWO64);
    }
  }

  // ------------------------------------------------------------------ decimals

  function DecimalDigit(n: nat): char
    requires n < 10
  {
    '0' + n as char
  }

  function Decimal(n: nat): (s: string)
    ensures |s| > 0 && '\0' !in s && forall i :: 0 <= i < |s| ==> '0' <= s[i] <= '9'
  {
    if n < 10 then [DecimalDigit(n)] else Decimal(n / 10) + [DecimalDigit(n % 10)]
  }

  /** The last digit of a number, and what precedes it. */
  lemma DecimalEnds(n: nat)
    ensures var s := Decimal(n);
            && s[|s| - 1] == DecimalDigit(n % 10)
            && (n < 10 ==> |s| == 1)
            && (n >= 10 ==> s[..|s| - 1] == Decimal(n / 10))
  {
  }

  function ParseDecimal(s: string): int {
    if s == "" then 0 else 10 * ParseDecimal(s[..|s| - 1]) + (s[|s| - 1] as int - '0' as int)
  }

  lemma {:induction false} DecimalRoundTrip(n: nat)
    ensures ParseDecimal(Decimal(n)) == n
  {
    if n < 10 {
      assert Decimal(n)[..0] == "";
    } else {
      DecimalRoundTrip(n / 10);
      var s := Decimal(n);
      assert s[..|s| - 1] == Decimal(n / 10);
    }
  }

  lemma {:induction false} DecimalLength(n: nat, k: nat)
    requires k > 0 && n < Pow10(k)
    ensures |Decimal(n)| <= k
    decreases k
  {
    assert Pow10(1) == 10;
    if n >= 10 {
      DecimalLength(n / 10, k - 1);
    }
  }

  function Pow10(k: nat): nat {
    if k == 0 then 1 else 10 * Pow10(k - 1)
  }

  lemma WordDecimalLength(n: u32)
    ensures |Decimal(n)| <= 10
  {
    assert Pow10(3) == 1000;
    assert Pow10(6) == 1000_000;
    assert Pow10(9) == 1000_000_000;
    DecimalLength(n, 10);
  }

  lemma LongDecimalLength(n: u64)
    ensures |Decimal(n)| <= 20
  {
    assert Pow10(3) == 1000;
    assert Pow10(6) == 1000_000;
    assert Pow10(9) == 1000_000_000;
    assert Pow10(12) == 1000_000_000_000;
    assert Pow10(15) == 1000_000_000_000_000;
    assert Pow10(18) == 1000_000_000_000_000_000;
    DecimalLength(n, 20);
  }

  // -------------------------------------------------------- memory type names

  const TYPE_NAMES: seq<string> := [
    "EfiReservedMemoryType",
    "EfiLoaderCode",
    "EfiLoaderData",
    "EfiBootServicesCode",
    "EfiBootServicesData",
    "EfiRuntimeServicesCode",
    "EfiRuntimeServicesData",
    "EfiConventionalMemory",
    "EfiUnusableMemory",
    "EfiACPIReclaimMemory",
    "EfiACPIMemoryNVS",
    "EfiMemoryMappedIO",
    "EfiMemoryMappedIOPortSpace",
    "EfiPalCode"]

  function TypeName(t: u32): string {
    if t < |TYPE_NAMES| then TYPE_NAMES[t] else "Unknown(" + Decimal(t) + ")"
  }

  /** What fits in a buffer of `size` characters next to the terminator. */
  function Clip(s: string, size: nat): (r: string)
    requires size > 0
    ensures r <= s && |r| == if |s| < size then |s| else size - 1
  {
    if |s| < size then s else s[..size - 1]
  }

  lemma KnownTypeNameShape(t: u32)
    requires t < |TYPE_NAMES|
    ensures 10 <= |TypeName(t)| <= 26 && TypeName(t)[0] == 'E'
  {
  }

  lemma KnownTypeName(t: u32)
    requires t < |TYPE_NAMES|
    ensures 10 <= |TypeName(t)| <= 26 && TypeName(t)[0] == 'E' && '\0' !in TypeName(t)
  {
    KnownTypeNameShape(t);
    KnownTypeNamePrintable(t);
  }

  lemma KnownTypeNamePrintable(t: u32)
    requires t < |TYPE_NAMES|
    ensures '\0' !in TypeName(t)
  {
    if t < 5 {
      FirstNames(t);
    } else if t < 9 {
      MiddleNames(t);
    } else {
      LastNames(t);
    }
  }

  lemma FirstNames(t: u32)
    requires t < 5
    ensures '\0' !in TYPE_NAMES[t]
  {
  }

  lemma MiddleNames(t: u32)
    requires 5 <= t < 9
    ensures '\0' !in TYPE_NAMES[t]
  {
  }

  lemma LastNames(t: u32)
    requires 9 <= t < 14
    ensures '\0' !in TYPE_NAMES[t]
  {
  }

  /** The names belong to the numbers of section 7.2 of UEFI Specification 2.11: code and data of loader and services. */
  lemma NamesOfPrograms()
    ensures TypeName(1) == "EfiLoaderCode" && TypeName(2) == "EfiLoaderData"
    ensures TypeName(3) == "EfiBootServicesCode" && TypeName(4) == "EfiBootServicesData"
    ensures TypeName(5) == "EfiRuntimeServicesCode" && TypeName(6) == "EfiRuntimeServicesData"
    ensures TypeName(13) == "EfiPalCode"
  {
  }

  /** And the other memory. */
  lemma NamesOfMemory()
    ensures TypeName(0) == "EfiReservedMemoryType" && TypeName(7) == "EfiConventionalMemory"
    ensures TypeName(8) == "EfiUnusableMemory" && TypeName(9) == "EfiACPIReclaimMemory"
    ensures TypeName(10) == "EfiACPIMemoryNVS" && TypeName(11) == "EfiMemoryMappedIO"
    ensures TypeName(12) == "EfiMemoryMappedIOPortSpace"
  {
  }

  lemma TypeNameFits(t: u32)
    ensures |TypeName(t)| < 32 && '\0' !in TypeName(t)
    ensures Clip(TypeName(t), 32) == TypeName(t)
  {
    if t < |TYPE_NAMES| {
      KnownTypeName(t);
    } else {
      WordDecimalLength(t);
    }
  }

  /** The number inside `Unknown(n)`. */
  lemma UnknownNameParses(t: u32)
    requires t >= |TYPE_NAMES|
    ensures var s := TypeName(t);
            && |s| > 9 && s[..8] == "Unknown(" && s[|s| - 1] == ')'
            && ParseDecimal(s[8..|s| - 1]) == t
  {
    var s := TypeName(t);
    assert s[8..|s| - 1] == Decimal(t);
    DecimalRoundTrip(t);
  }

  lemma KnownTypeNamesDiffer(t: u32, u: u32)
    requires t < u < |TYPE_NAMES|
    ensures TypeName(t) != TypeName(u)
  {
    assert forall i, j :: 0 <= i < j < |TYPE_NAMES| ==>
      |TYPE_NAMES[i]| != |TYPE_NAMES[j]| || TYPE_NAMES[i][9] != TYPE_NAMES[j][9] ||
      TYPE_NAMES[i][|TYPE_NAMES[i]| - 1] != TYPE_NAMES[j][|TYPE_NAMES[j]| - 1] || TYPE_NAMES[i][4] != TYPE_NAMES[j][4];
  }

  /** In a 32-character buffer different types have different names. */
  lemma TypeNamesAreInjective(t: u32, u: u32)
    requires Clip(TypeName(t), 32) == Clip(TypeName(u), 32)
    ensures t == u
  {
    TypeNameFits(t);
    TypeNameFits(u);
    if t < |TYPE_NAMES| {
      KnownTypeName(t);
    } else {
      UnknownNameParses(t);
    }
    if u < |TYPE_NAMES| {
      KnownTypeName(u);
    } else {
      UnknownNameParses(u);
    }
    if t < u < |TYPE_NAMES| {
      KnownTypeNamesDiffer(t, u);
    } else if u < t < |TYPE_NAMES| {
      KnownTypeNamesDiffer(u, t);
    }
  }

  function AccessText(access: Access): (s: string)
    ensures '\0' !in s && |s| < 16
  {
    if !access.accessKnown then "Unknown"
    else if access.readAllowed then (if access.writeAllowed then "R/W" else "R/-")
    else if access.writeAllowed then "-/W"
    else "--"
  }

  /** The access text says whether the verdict is known, and if so an R stands in front iff reading is allowed, a W behind iff writing is. */
  lemma AccessTextTells(access: Access)
    ensures var text := AccessText(access);
            && |text| >= 2 && (text == "Unknown" <==> !access.accessKnown)
            && (access.accessKnown ==> (text[0] == 'R' <==> access.readAllowed))
            && (access.accessKnown ==> (text[|text| - 1] == 'W' <==> access.writeAllowed))
            && (access.accessKnown ==> forall i :: 0 <= i < |text| ==> text[i] in "RW/-")
  {
    assert "RW/-"[0] == 'R' && "RW/-"[1] == 'W' && "RW/-"[2] == '/' && "RW/-"[3] == '-';
    assert "Unknown"[0] == 'U';
  }
}
