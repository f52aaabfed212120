/**
  Formatting into caller-supplied, NUL-terminated character buffers.
 */
module Format {
  import opened Words
  import opened AccessPolicy
  import opened Text

  /** The buffer holds `text` as a terminated string. */
  ghost predicate Holds(buffer: array<char>, text: string)
    reads buffer
  {
    |text| < buffer.Length && buffer[..|text|] == text && buffer[|text|] == '\0' && '\0' !in text
  }

  // ------------------------------------------------------------- FormatEngine

  method FormatByte(b: byte) returns (high: char, low: char)
    ensures [high, low] == HexByte(b)
  {
    high := HexDigit((b / 16) % 16);
    low := HexDigit(b % 16);
    assert HexText(b / 16, 1) == HexText(b / 16 / 16, 0) + [HexDigit((b / 16) % 16)];
  }

  /** Append two digits and a space at `offset`. */
  method PutSpaced(b: byte, result: array<char>, offset: nat, ghost done: string)
    requires offset + 3 <= result.Length && result[..offset] == done
    modifies result
    ensures result[..offset + 3] == done + HexByte(b) + " "
  {
    var high, low := FormatByte(b);
    result[offset] := high;
    result[offset + 1] := low;
    result[offset + 2] := ' ';
    assert result[..offset + 3] == done + [high, low] + " ";
  }

  method Terminate(result: array<char>, offset: nat, ghost text: string)
    requires offset < result.Length && result[..offset] == text && '\0' !in text
    modifies result
    ensures Holds(result, text)
  {
    result[offset] := '\0';
    assert result[..offset] == text;
  }

  method FormatBytes(bytes: seq<byte>, size: nat, result: array<char>)
    requires size <= |bytes|
    modifies result
    ensures result.Length > 0 ==>
              var room := (result.Length - 1) / 3;
              Holds(result, DumpText(bytes[..if size < room then size else room]))
  {
    if result.Length == 0 {
      return;
    }
    result[0] := '\0';
    var offset, index := 0, 0;
    while index < size && offset + 3 < result.Length
      invariant index <= size && offset == 3 * index < result.Length
      invariant result[..offset] == Spaced(bytes[..index])
    {
      PutSpaced(bytes[index], result, offset, Spaced(bytes[..index]));
      SpacedStep(bytes, index);
      offset, index := offset + 3, index + 1;
    }
    if offset > 0 && offset < result.Length {
      offset := offset - 1;
    }
    ghost var spaced := Spaced(bytes[..index]);
    assert result[..offset] == spaced[..offset] == DumpText(bytes[..index]);
    Terminate(result, offset, DumpText(bytes[..index]));
    assert index == if size < (result.Length - 1) / 3 then size else (result.Length - 1) / 3;
  }

  function GetCellDisplayWidth(width: nat): nat {
    width * 2 + 1
  }

  /** Write two digits at `pos`. */
  method PutByte(b: byte, buffer: array<char>, pos: nat)
    requires pos + 2 <= buffer.Length
    modifies buffer
    ensures buffer[..] == old(buffer[..pos]) + HexByte(b) + old(buffer[pos + 2..])
  {
    var high, low := FormatByte(b);
    buffer[pos] := high;
    buffer[pos + 1] := low;
    assert buffer[..] == old(buffer[..pos]) + [high, low] + old(buffer[pos + 2..]);
  }

  method FinishCell(ghost digits: string, buffer: array<char>, pos: nat)
    requires pos + 2 <= buffer.Length && buffer[..pos] == digits && '\0' !in digits
    modifies buffer
    ensures Holds(buffer, digits + " ")
  {
    buffer[pos] := ' ';
    buffer[pos + 1] := '\0';
    assert buffer[..pos + 1] == digits + " ";
  }

  method FormatValueLE(value: u64, width: nat, buffer: array<char>) returns (length: nat)
    requires width <= 8
    modifies buffer
    ensures buffer.Length < 2 * width + 2 ==> length == 0 && (buffer.Length > 0 ==> Holds(buffer, ""))
    ensures buffer.Length >= 2 * width + 2 ==>
              length == 2 * width + 1 && Holds(buffer, CellDigits(ValueBytes(value, width)) + " ")
  {
    if buffer.Length == 0 {
      return 0;
    }
    buffer[0] := '\0';
    var required := width * 2 + 2;
    if buffer.Length < required {
      return 0;
    }
    ghost var bytes := ValueBytes(value, width);
    var pos, index := 0, width;
    while index > 0
      invariant 0 <= index <= width && pos == 2 * (width - index)
      invariant buffer[..pos] == CellDigits(bytes[index..])
    {
      index := index - 1;
      ValueByteAt(value, width, index);
      var b: byte := ShiftBytes(value, index) % 256;
      ghost var before := buffer[..pos];
      PutByte(b, buffer, pos);
      assert buffer[..pos + 2] == before + HexByte(b);
      assert bytes[index..] == [b] + bytes[index + 1..];
      CellDigitsPrepend(b, bytes[index + 1..]);
      pos := pos + 2;
    }
    assert bytes[0..] == bytes;
    FinishCell(CellDigits(bytes), buffer, pos);
    length := pos + 1;
  }

  method FormatOffsetHeader(offset: nat, width: nat, buffer: array<char>) returns (length: nat)
    modifies buffer
    ensures buffer.Length < 2 * width + 2 ==> length == 0 && (buffer.Length > 0 ==> Holds(buffer, ""))
    ensures buffer.Length >= 2 * width + 2 ==>
              length == 2 * width + 1 && Holds(buffer, CellDigits(OffsetBytes(offset, width)) + " ")
  {
    if buffer.Length == 0 {
      return 0;
    }
    buffer[0] := '\0';
    var required := width * 2 + 2;
    if buffer.Length < required {
      return 0;
    }
    ghost var bytes := OffsetBytes(offset, width);
    var pos, index := 0, width;
    while index > 0
      invariant 0 <= index <= width && pos == 2 * (width - index)
      invariant buffer[..pos] == CellDigits(bytes[index..])
    {
      index := index - 1;
      var b: byte := (offset + index) % 256;
      ghost var before := buffer[..pos];
      PutByte(b, buffer, pos);
      assert buffer[..pos + 2] == before + HexByte(b);
      assert bytes[index..] == [b] + bytes[index + 1..];
      CellDigitsPrepend(b, bytes[index + 1..]);
      pos := pos + 2;
    }
    assert bytes[0..] == bytes;
    FinishCell(CellDigits(bytes), buffer, pos);
    length := pos + 1;
  }

  method FormatAddress(address: u64, buffer: array<char>)
    modifies buffer
    ensures 0 < buffer.Length < 19 ==> Holds(buffer, "")
    ensures buffer.Length >= 19 ==> Holds(buffer, AddressText(address))
  {
    if buffer.Length < 19 {
      if buffer.Length > 0 {
        buffer[0] := '\0';
      }
      return;
    }
    buffer[0] := '0';
    buffer[1] := 'x';
    for index := 0 to 16
      invariant buffer[0] == '0' && buffer[1] == 'x'
      invariant buffer[2..index + 2] == HexText(ShiftNibbles(address, 16 - index), index)
    {
      var shifted := ShiftNibbles(address, 15 - index);
      ghost var before := buffer[2..index + 2];
      ShiftNibblesStep(address, 15 - index);
      buffer[index + 2] := HexDigit(shifted % 16);
      assert buffer[2..index + 3] == before + [HexDigit(shifted % 16)];
    }
    buffer[18] := '\0';
    assert buffer[..18] == "0x" + buffer[2..18];
  }

  // ------------------------------------------------------------ UefiMemoryType

  method CopyString(destination: array<char>, source: string)
    requires '\0' !in source
    modifies destination
    ensures destination.Length > 0 ==> Holds(destination, Clip(source, destination.Length))
  {
    if destination.Length == 0 {
      return;
    }
    var index := 0;
    while index + 1 < destination.Length && index < |source|
      invariant index <= |source| && index < destination.Length
      invariant destination[..index] == source[..index]
    {
      destination[index] := source[index];
      index := index + 1;
    }
    destination[index] := '\0';
    assert destination[..index] == source[..index];
  }

  method FormatUnknownType(memType: u32, buffer: array<char>)
    modifies buffer
    ensures buffer.Length > 0 ==> Holds(buffer, Clip("Unknown(" + Decimal(memType) + ")", buffer.Length))
  {
    if buffer.Length == 0 {
      return;
    }
    CopyString(buffer, "Unknown(");
    var position := 8;
    ghost var name := "Unknown(" + Decimal(memType) + ")";
    if position >= buffer.Length {
      buffer[buffer.Length - 1] := '\0';
      assert buffer[..buffer.Length - 1] == Clip(name, buffer.Length);
      return;
    }
    WordDecimalLength(memType);
    var digits, count := DecimalDigits(memType, 10);
    assert buffer[..8] == name[..8];
    while count > 0 && position + 1 < buffer.Length
      modifies buffer
      invariant 0 <= count <= |Decimal(memType)| && position == 8 + (|Decimal(memType)| - count)
      invariant position < buffer.Length
      invariant buffer[..position] == name[..position]
    {
      count := count - 1;
      buffer[position] := digits[count];
      assert name[position] == Decimal(memType)[position - 8];
      assert name[..position + 1] == name[..position] + [buffer[position]];
      position := position + 1;
    }
    if position + 1 < buffer.Length {
      buffer[position] := ')';
      assert name[position] == ')';
      position := position + 1;
    }
    buffer[position] := '\0';
    assert buffer[..position] == name[..position];
  }

  /** The digit stack both decimal printers fill, lowest digit first. */
  method DecimalDigits(value: u64, capacity: nat) returns (digits: array<char>, count: nat)
    requires |Decimal(value)| <= capacity
    ensures fresh(digits) && count == |Decimal(value)| <= digits.Length
    ensures forall i :: 0 <= i < count ==> digits[i] == Decimal(value)[count - 1 - i]
  {
    hide Decimal;
    digits := new char[capacity];
    count := 0;
    var rest: nat := value;
    ghost var text := Decimal(value);
    while true
      invariant count + |Decimal(rest)| == |text| <= capacity
      invariant text[..|text| - count] == Decimal(rest)
      invariant forall i :: 0 <= i < count ==> digits[i] == text[|text| - 1 - i]
      decreases rest
    {
      DecimalEnds(rest);
      assert text[|text| - count - 1] == Decimal(rest)[|Decimal(rest)| - 1];
      digits[count] := DecimalDigit(rest % 10);
      count := count + 1;
      if rest < 10 {
        return;
      }
      rest := rest / 10;
    }
  }

  method MemoryTypeFormat(memType: u32, name: array<char>)
    modifies name
    ensures name.Length > 0 ==> Holds(name, Clip(TypeName(memType), name.Length))
  {
    if memType < |TYPE_NAMES| {
      KnownTypeName(memType);
      CopyString(name, TYPE_NAMES[memType]);
      return;
    }
    FormatUnknownType(memType, name);
  }

  method MemoryAccessFormat(access: Access, buffer: array<char>)
    modifies buffer
    ensures buffer.Length > 0 ==> Holds(buffer, Clip(AccessText(access), buffer.Length))
  {
    if buffer.Length == 0 {
      return;
    }
    if !access.accessKnown {
      CopyString(buffer, "Unknown");
      return;
    }
    if access.readAllowed {
      CopyString(buffer, if access.writeAllowed then "R/W" else "R/-");
    } else if access.writeAllowed {
      CopyString(buffer, "-/W");
    } else {
      CopyString(buffer, "--");
    }
  }

  // ---------------------------------------------------- bounded line building

  lemma ClipSnoc(s: string, c: char, size: nat)
    requires size > 0
    ensures Clip(Clip(s, size) + [c], size) == Clip(s + [c], size)
  {
  }

  lemma ClipStep(text: string, s: string, i: nat, size: nat)
    requires size > 0 && i < |s|
    ensures Clip(Clip(text + s[..i], size) + [s[i]], size) == Clip(text + s[..i + 1], size)
  {
    ClipSnoc(text + s[..i], s[i], size);
    assert text + s[..i + 1] == text + s[..i] + [s[i]];
  }

  method AppendChar(buffer: array<char>, pos: nat, c: char, ghost text: string) returns (newPos: nat)
    requires Holds(buffer, text) && pos == |text| && c != '\0'
    modifies buffer
    ensures Holds(buffer, Clip(text + [c], buffer.Length)) && newPos == |Clip(text + [c], buffer.Length)|
  {
    newPos := pos;
    if pos + 1 >= buffer.Length {
      return;
    }
    buffer[pos] := c;
    newPos := pos + 1;
    buffer[newPos] := '\0';
    assert buffer[..newPos] == text + [c];
  }

  /** Append character `i` of `s` after `text` and the characters of `s` before it. */
  method AppendNext(buffer: array<char>, pos: nat, c: char, ghost text: string, ghost s: string, ghost i: nat)
    returns (newPos: nat)
    requires i < |s| && s[i] == c && c != '\0' && buffer.Length > 0
    requires Holds(buffer, Clip(text + s[..i], buffer.Length)) && pos == |Clip(text + s[..i], buffer.Length)|
    modifies buffer
    ensures Holds(buffer, Clip(text + s[..i + 1], buffer.Length))
    ensures newPos == |Clip(text + s[..i + 1], buffer.Length)|
  {
    newPos := AppendChar(buffer, pos, c, Clip(text + s[..i], buffer.Length));
    ClipStep(text, s, i, buffer.Length);
  }

  /** Nothing appended yet, and everything appended. */
  lemma AppendEnds(text: string, s: string)
    ensures text + s[..0] == text && text + s[..|s|] == text + s
  {
    assert s[..|s|] == s;
  }

  method AppendString(buffer: array<char>, pos: nat, s: string, ghost text: string) returns (newPos: nat)
    requires Holds(buffer, text) && pos == |text| && '\0' !in s
    modifies buffer
    ensures Holds(buffer, Clip(text + s, buffer.Length)) && newPos == |Clip(text + s, buffer.Length)|
  {
    newPos := pos;
    AppendEnds(text, s);
    for index := 0 to |s|
      invariant newPos == |Clip(text + s[..index], buffer.Length)|
      invariant Holds(buffer, Clip(text + s[..index], buffer.Length))
    {
      newPos := AppendNext(buffer, newPos, s[index], text, s, index);
    }
  }

  method AppendHexFixed(buffer: array<char>, pos: nat, value: u64, digits: nat, ghost text: string)
    returns (newPos: nat)
    requires Holds(buffer, text) && pos == |text| && digits <= 16
    modifies buffer
    ensures Holds(buffer, Clip(text + HexText(value, digits), buffer.Length))
    ensures newPos == |Clip(text + HexText(value, digits), buffer.Length)|
  {
    forall i | 0 <= i < digits
      ensures HexText(value, digits)[i] == HexDigit(ShiftNibbles(value, digits - 1 - i) % 16)
    {
      HexTextAt(value, digits, i);
    }
    newPos := AppendNibbles(buffer, pos, value, digits, text, HexText(value, digits));
  }

  /** Append the nibbles of `value`, highest of the `digits` lowest ones first. */
  method AppendNibbles(buffer: array<char>, pos: nat, value: u64, digits: nat, ghost text: string, ghost all: string)
    returns (newPos: nat)
    requires Holds(buffer, text) && pos == |text| && |all| == digits
    requires forall i :: 0 <= i < digits ==> all[i] == HexDigit(ShiftNibbles(value, digits - 1 - i) % 16)
    modifies buffer
    ensures Holds(buffer, Clip(text + all, buffer.Length)) && newPos == |Clip(text + all, buffer.Length)|
  {
    newPos := pos;
    var index := digits;
    AppendEnds(text, all);
    while index > 0
      invariant 0 <= index <= digits
      invariant newPos == |Clip(text + all[..digits - index], buffer.Length)|
      invariant Holds(buffer, Clip(text + all[..digits - index], buffer.Length))
    {
      index := index - 1;
      newPos := AppendNext(buffer, newPos, HexDigit(ShiftNibbles(value, index) % 16), text, all, digits - 1 - index);
    }
  }

  method AppendDecimal(buffer: array<char>, pos: nat, value: u64, ghost text: string) returns (newPos: nat)
    requires Holds(buffer, text) && pos == |text|
    modifies buffer
    ensures Holds(buffer, Clip(text + Decimal(value), buffer.Length))
    ensures newPos == |Clip(text + Decimal(value), buffer.Length)|
  {
    newPos := pos;
    LongDecimalLength(value);
    var digits, count := DecimalDigits(value, 20);
    ghost var all := Decimal(value);
    AppendEnds(text, all);
    while count > 0
      modifies buffer
      invariant 0 <= count <= |all|
      invariant newPos == |Clip(text + all[..|all| - count], buffer.Length)|
      invariant Holds(buffer, Clip(text + all[..|all| - count], buffer.Length))
    {
      count := count - 1;
      assert digits[count] == all[|all| - 1 - count];
      newPos := AppendNext(buffer, newPos, digits[count], text, all, |all| - 1 - count);
    }
  }
}
