/**
  Access policy: the memory-type policy of the tool intersected with the attributes
  the firmware reports, and the reads and writes that the policy lets through.
 */
module AccessPolicy {
  import opened Words
  import opened MemoryMap
  import opened PhysicalMemory

  datatype Status =
    | Success
    | InvalidParameter
    | NotFound
    | AccessDenied
    | Aborted
    | NoMapping
    | OtherError(code: nat)
    | Warning(code: nat)

  /** The statuses that are no errors: success, and warnings of the firmware. */
  type Passing = s: Status | s.Success? || s.Warning? witness Success

  type Failure = s: Status | !s.Success? && !s.Warning? witness NotFound

  /** What GetMemoryAttributes() answers for one range. */
  datatype AttributeReply = Reported(passing: Passing, attributes: u64) | Refused(failure: Failure)

  /** EFI_MEMORY_ATTRIBUTE_PROTOCOL, when the firmware provides it. */
  type Protocol = Option<(int, int) -> AttributeReply>

  datatype Firmware = Firmware(descriptors: seq<Descriptor>, protocol: Protocol)

  const EFI_MEMORY_RP: u64 := 0x2000
  const EFI_MEMORY_XP: u64 := 0x4000
  const EFI_MEMORY_RO: u64 := 0x2_0000

  /** The attribute with single-bit mask `mask` is set. */
  predicate HasAttribute(attributes: u64, mask: u64)
    requires mask > 0
  {
    (attributes / mask) % 2 == 1
  }

  /** C's test of an attribute bit. */
  lemma AttributeTest(attributes: u64)
    ensures And(attributes, EFI_MEMORY_RP) != 0 <==> HasAttribute(attributes, EFI_MEMORY_RP)
    ensures And(attributes, EFI_MEMORY_RO) != 0 <==> HasAttribute(attributes, EFI_MEMORY_RO)
    ensures And(attributes, EFI_MEMORY_XP) != 0 <==> HasAttribute(attributes, EFI_MEMORY_XP)
  {
    Pow2Values();
    assert Pow2(13) == EFI_MEMORY_RP by {
      Pow2Add(8, 5);
      assert Pow2(5) == 32;
    }
    assert Pow2(14) == EFI_MEMORY_XP;
    assert Pow2(17) == EFI_MEMORY_RO by {
      Pow2Add(13, 4);
      assert Pow2(4) == 16;
    }
    AndSingleBit(attributes, 13);
    AndSingleBit(attributes, 14);
    AndSingleBit(attributes, 17);
  }

  /** EFI_MEMORY_ACCESS_INFO. */
  datatype Access = Access(
    queryStatus: Status,
    attributes: u64,
    readAllowed: bool,
    writeAllowed: bool,
    executeAllowed: bool,
    accessKnown: bool)

  const UNKNOWN_ACCESS := Access(InvalidParameter, 0, false, false, false, false)

  type Ram = m: seq<byte> | |m| == TWO64 ghost witness seq(TWO64, _ => 0)

  predicate BadRange(address: u64, length: u64) {
    length == 0 || address > MAX_UINT64 - length
  }

  /** Index of the first descriptor from `i` on that holds the whole range, or |ds|. */
  function FirstCover(ds: seq<Descriptor>, i: nat, address: u64, length: u64): (k: nat)
    requires i <= |ds|
    ensures i <= k <= |ds|
    ensures k < |ds| ==> Sized(ds[k]) && Covers(ds[k], address, length)
    ensures forall j :: i <= j < k ==> !(Sized(ds[j]) && Covers(ds[j], address, length))
    decreases |ds| - i
  {
    if i == |ds| || (Sized(ds[i]) && Covers(ds[i], address, length)) then i
    else FirstCover(ds, i + 1, address, length)
  }

  /** The descriptor that decides about a range: the first one that contains all of it. */
  function FindDescriptor(ds: seq<Descriptor>, address: u64, length: u64): Option<Descriptor> {
    if BadRange(address, length) then None
    else
      var k := FirstCover(ds, 0, address, length);
      if k == |ds| then None else Some(ds[k])
  }

  predicate ToolReadable(ds: seq<Descriptor>, address: u64, length: u64) {
    var d := FindDescriptor(ds, address, length);
    d.Some? && ReadableType(d.value.memType)
  }

  predicate ToolWritable(ds: seq<Descriptor>, address: u64, length: u64) {
    var d := FindDescriptor(ds, address, length);
    d.Some? && WritableType(d.value.memType)
  }

  function QueryAccess(fw: Firmware, address: u64, length: u64): Access {
    if BadRange(address, length) then UNKNOWN_ACCESS
    else if FindDescriptor(fw.descriptors, address, length).None? then UNKNOWN_ACCESS.(queryStatus := NoMapping)
    else if fw.protocol.None? then UNKNOWN_ACCESS.(queryStatus := NotFound)
    else
      match fw.protocol.value(address, length)
      case Refused(failure) => UNKNOWN_ACCESS.(queryStatus := failure)
      case Reported(passing, attributes) =>
        Access(passing, attributes,
               ToolReadable(fw.descriptors, address, length) && !HasAttribute(attributes, EFI_MEMORY_RP),
               ToolWritable(fw.descriptors, address, length) && !HasAttribute(attributes, EFI_MEMORY_RO),
               !HasAttribute(attributes, EFI_MEMORY_XP),
               true)
  }

  predicate CanRead(fw: Firmware, address: u64, length: u64) {
    !BadRange(address, length) &&
    var access := QueryAccess(fw, address, length);
    access.accessKnown && access.readAllowed
  }

  predicate CanWrite(fw: Firmware, address: u64, length: u64) {
    !BadRange(address, length) &&
    var access := QueryAccess(fw, address, length);
    access.accessKnown && access.writeAllowed
  }

  function CheckAccess(allowed: bool, address: u64, width: u64): Status {
    if !SupportedWidth(width) then InvalidParameter
    else if !allowed then AccessDenied
    else if address % width != 0 then InvalidParameter
    else Success
  }

  function ReadStatus(fw: Firmware, address: u64, width: u64): Status {
    CheckAccess(CanRead(fw, address, width), address, width)
  }

  function WriteStatus(fw: Firmware, address: u64, width: u64): Status {
    CheckAccess(CanWrite(fw, address, width), address, width)
  }

  /** The value MemRead delivers; zero when the read fails. */
  function ReadValue(fw: Firmware, mem: Ram, address: u64, width: u64): u64 {
    if ReadStatus(fw, address, width) != Success then 0
    else
      LoadFitsWord(mem, address, width);
      Load(mem, address, width)
  }

  /** Memory after MemWrite. */
  function AfterWrite(fw: Firmware, mem: Ram, address: u64, width: u64, value: u64): Ram {
    if WriteStatus(fw, address, width) != Success then mem
    else Store(mem, address, width, value)
  }

  // ------------------------------------------------------- verdicts and statuses

  /** Entry `i` is the first that has pages, ends below 2^64 and holds the whole range. */
  predicate Decides(ds: seq<Descriptor>, i: nat, address: u64, length: u64) {
    && length > 0 && i < |ds| && Sized(ds[i]) && Covers(ds[i], address, length)
    && forall j :: 0 <= j < i ==> !(Sized(ds[j]) && Covers(ds[j], address, length))
  }

  /**
    Where the firmware answers, the verdict is that of the deciding entry's type, 1 to 7 for writing
    and also 9 and 10 for reading, less what the bits 13, 17 and 14 of the attributes forbid.
   */
  lemma ReportedVerdict(fw: Firmware, i: nat, address: u64, length: u64)
    requires Decides(fw.descriptors, i, address, length)
    requires fw.protocol.Some? && fw.protocol.value(address, length).Reported?
    ensures var t, reply := fw.descriptors[i].memType, fw.protocol.value(address, length);
            QueryAccess(fw, address, length) ==
              Access(reply.passing, reply.attributes,
                     (1 <= t <= 7 || t == 9 || t == 10) && And(reply.attributes, 0x2000) == 0,
                     1 <= t <= 7 && And(reply.attributes, 0x2_0000) == 0,
                     And(reply.attributes, 0x4000) == 0,
                     true)
  {
    var reply := fw.protocol.value(address, length);
    AttributeTest(reply.attributes);
    hide And;
    hide HasAttribute;
    assert FirstCover(fw.descriptors, 0, address, length) == i;
  }

  /** Everywhere else nothing is known and nothing is allowed, and the status says why. */
  lemma UnknownVerdict(fw: Firmware, address: u64, length: u64)
    ensures QueryAccess(fw, address, length).accessKnown <==>
              (exists i :: Decides(fw.descriptors, i, address, length)) &&
              fw.protocol.Some? && fw.protocol.value(address, length).Reported?
    ensures !QueryAccess(fw, address, length).accessKnown ==>
              QueryAccess(fw, address, length) ==
                Access(if length == 0 || address + length >= TWO64 then InvalidParameter
                       else if !(exists i :: Decides(fw.descriptors, i, address, length)) then NoMapping
                       else if fw.protocol.None? then NotFound
                       else fw.protocol.value(address, length).failure,
                       0, false, false, false, false)
  {
    var k := FirstCover(fw.descriptors, 0, address, length);
    if !BadRange(address, length) && k < |fw.descriptors| {
      assert Decides(fw.descriptors, k, address, length);
    }
  }

  /** Reads and writes succeed exactly on aligned, allowed accesses of 1, 2, 4 or 8 bytes; denial comes before misalignment. */
  lemma AccessStatuses(fw: Firmware, address: u64, width: u64)
    ensures ReadStatus(fw, address, width) in {Success, AccessDenied, InvalidParameter}
    ensures ReadStatus(fw, address, width) == Success <==>
              width in {1, 2, 4, 8} && address % width == 0 && QueryAccess(fw, address, width).readAllowed
    ensures ReadStatus(fw, address, width) == AccessDenied <==>
              width in {1, 2, 4, 8} && !QueryAccess(fw, address, width).readAllowed
    ensures WriteStatus(fw, address, width) in {Success, AccessDenied, InvalidParameter}
    ensures WriteStatus(fw, address, width) == Success <==>
              width in {1, 2, 4, 8} && address % width == 0 && QueryAccess(fw, address, width).writeAllowed
    ensures WriteStatus(fw, address, width) == AccessDenied <==>
              width in {1, 2, 4, 8} && !QueryAccess(fw, address, width).writeAllowed
  {
  }

  // ------------------------------------------------------------ memory laws

  /** What a permitted write leaves behind is what a permitted read of the same width finds. */
  lemma ReadAfterWrite(fw: Firmware, mem: Ram, address: u64, width: u64, value: u64)
    requires WriteStatus(fw, address, width) == Success && ReadStatus(fw, address, width) == Success
    ensures ReadValue(fw, AfterWrite(fw, mem, address, width, value), address, width)
         == value % Pow256(width)
  {
    LoadAfterStore(mem, address, width, value);
  }

  /** Only the addressed bytes change, and none at all when the write is refused. */
  lemma WriteIsLocal(fw: Firmware, mem: Ram, address: u64, width: u64, value: u64, x: u64)
    ensures AfterWrite(fw, mem, address, width, value)[x] != mem[x] ==>
              WriteStatus(fw, address, width) == Success && address <= x < address + width
  {
    if WriteStatus(fw, address, width) == Success {
      StoreFrame(mem, address, width, value, x);
    }
  }

  /** A read of 2w bytes is the little-endian join of the two reads of w bytes. */
  lemma ReadSplits(fw: Firmware, mem: Ram, address: u64, half: u64)
    requires SupportedWidth(half) && SupportedWidth(2 * half)
    requires ReadStatus(fw, address, 2 * half) == Success
    requires ReadStatus(fw, address, half) == Success
    requires ReadStatus(fw, address + half, half) == Success
    ensures ReadValue(fw, mem, address, 2 * half)
         == ReadValue(fw, mem, address, half) + Pow256(half) * ReadValue(fw, mem, address + half, half)
  {
    LoadJoin(mem, address, half, half);
  }

  /** Writing the displayed value back is invisible. */
  lemma WriteBackIsIdentity(fw: Firmware, mem: Ram, address: u64, width: u64)
    requires ReadStatus(fw, address, width) == Success
    ensures AfterWrite(fw, mem, address, width, ReadValue(fw, mem, address, width)) == mem
  {
    StoreOfLoad(mem, address, width);
  }

  // --------------------------------------------------- verdicts and subranges

  /** The firmware answers a subrange of a range with uniform attributes as it answers the range. */
  ghost predicate Consistent(protocol: Protocol) {
    protocol.Some? ==>
      forall a, n, b, m {:trigger protocol.value(a, n), protocol.value(b, m)} ::
        protocol.value(a, n).Reported? && 0 <= a <= b && 0 < m && b + m <= a + n ==>
          protocol.value(b, m) == protocol.value(a, n)
  }

  predicate Within(b: int, m: int, a: int, n: int) {
    0 < m && a <= b && b + m <= a + n
  }

  /** With disjoint descriptors a subrange is decided by the descriptor of the range. */
  lemma SubrangeDescriptor(ds: seq<Descriptor>, a: u64, n: u64, b: u64, m: u64)
    requires Disjoint(ds) && FindDescriptor(ds, a, n).Some? && Within(b, m, a, n)
    ensures FindDescriptor(ds, b, m) == FindDescriptor(ds, a, n)
  {
    var i, j := FirstCover(ds, 0, a, n), FirstCover(ds, 0, b, m);
    assert Covers(ds[i], b, m);
    assert !(j < i && Overlap(ds[j], ds[i]));
  }

  /** A known verdict about a range is the verdict about every nonempty part of it. */
  lemma SubrangeVerdict(fw: Firmware, a: u64, n: u64, b: u64, m: u64)
    requires Disjoint(fw.descriptors) && Consistent(fw.protocol) && Within(b, m, a, n)
    requires QueryAccess(fw, a, n).accessKnown
    ensures QueryAccess(fw, b, m) == QueryAccess(fw, a, n)
  {
    SubrangeDescriptor(fw.descriptors, a, n, b, m);
    assert fw.protocol.value(a, n).Reported?;
    assert fw.protocol.value(b, m) == fw.protocol.value(a, n);
  }

  /**
    The verdict shown for a page decides every access inside the page: with a known
    verdict an aligned access of a supported width succeeds exactly when it is shown as allowed.
   */
  lemma PageVerdictGovernsCells(fw: Firmware, page: u64, size: u64, address: u64, width: u64)
    requires Disjoint(fw.descriptors) && Consistent(fw.protocol)
    requires QueryAccess(fw, page, size).accessKnown
    requires Within(address, width, page, size) && SupportedWidth(width) && address % width == 0
    ensures ReadStatus(fw, address, width) ==
              if QueryAccess(fw, page, size).readAllowed then Success else AccessDenied
    ensures WriteStatus(fw, address, width) ==
              if QueryAccess(fw, page, size).writeAllowed then Success else AccessDenied
  {
    SubrangeVerdict(fw, page, size, address, width);
  }

  /** Wherever a write gets through, one writable descriptor holds all the bytes it changes. */
  lemma WriteNeedsWritableDescriptor(fw: Firmware, address: u64, width: u64, x: u64)
    requires WriteStatus(fw, address, width) == Success && address <= x < address + width
    ensures exists i :: 0 <= i < |fw.descriptors| && WritableType(fw.descriptors[i].memType) && Sized(fw.descriptors[i]) &&
                        Covers(fw.descriptors[i], x, 1)
  {
    var k := FirstCover(fw.descriptors, 0, address, width);
    assert Covers(fw.descriptors[k], x, 1);
  }

  /** A range containing `x` that the firmware reports read-only. */
  ghost predicate ReportedReadOnly(protocol: Protocol, x: int) {
    protocol.Some? &&
    exists a, n {:trigger protocol.value(a, n)} ::
      0 <= a <= x < a + n && protocol.value(a, n).Reported? &&
      HasAttribute(protocol.value(a, n).attributes, EFI_MEMORY_RO)
  }

  /** No byte of a range the firmware reports read-only is ever inside a permitted write. */
  lemma ReadOnlyStopsWrites(fw: Firmware, address: u64, width: u64, x: u64)
    requires Consistent(fw.protocol) && ReportedReadOnly(fw.protocol, x)
    requires address <= x < address + width
    ensures WriteStatus(fw, address, width) != Success
  {
    var a, n :| 0 <= a <= x < a + n && fw.protocol.value(a, n).Reported? &&
                HasAttribute(fw.protocol.value(a, n).attributes, EFI_MEMORY_RO);
    if fw.protocol.value(address, width).Reported? {
      assert fw.protocol.value(x, 1) == fw.protocol.value(a, n);
      assert fw.protocol.value(x, 1) == fw.protocol.value(address, width);
    }
  }

  // ------------------------------------------- the policy the header describes

  /** The firmware reports attributes for exactly this range. */
  predicate Answered(fw: Firmware, address: u64, length: u64) {
    fw.protocol.Some? && fw.protocol.value(address, length).Reported?
  }

  /** The tool policy, which only reported attributes can restrict. */
  predicate DocumentedRead(fw: Firmware, address: u64, length: u64) {
    ToolReadable(fw.descriptors, address, length) &&
    !(Answered(fw, address, length) && HasAttribute(fw.protocol.value(address, length).attributes, EFI_MEMORY_RP))
  }

  predicate DocumentedWrite(fw: Firmware, address: u64, length: u64) {
    ToolWritable(fw.descriptors, address, length) &&
    !(Answered(fw, address, length) && HasAttribute(fw.protocol.value(address, length).attributes, EFI_MEMORY_RO))
  }

  /** The code reads as documented exactly where the tool policy forbids it anyway or the firmware answers. */
  lemma ReadsAsDocumentedIff(fw: Firmware, address: u64, length: u64)
    ensures (CanRead(fw, address, length) <==> DocumentedRead(fw, address, length)) <==>
              !ToolReadable(fw.descriptors, address, length) || Answered(fw, address, length)
  {
  }

  lemma WritesAsDocumentedIff(fw: Firmware, address: u64, length: u64)
    ensures (CanWrite(fw, address, length) <==> DocumentedWrite(fw, address, length)) <==>
              !ToolWritable(fw.descriptors, address, length) || Answered(fw, address, length)
  {
  }

  /** Without a protocol a conventional frame should be readable and writable, and is neither. */
  lemma MissingProtocolDenies(address: u64)
    requires address < PAGE_SHIFT_SIZE
    ensures var fw := Firmware([Descriptor(EfiConventionalMemory, 0, 1, 0)], None);
            && DocumentedRead(fw, address, 1) && !CanRead(fw, address, 1)
            && DocumentedWrite(fw, address, 1) && !CanWrite(fw, address, 1)
  {
    var ds := [Descriptor(EfiConventionalMemory, 0, 1, 0)];
    assert Covers(ds[0], address, 1) && Sized(ds[0]);
    assert FirstCover(ds, 0, address, 1) == 0;
  }

  /** Firmware without the protocol, or with one that refuses every query. */
  ghost predicate Silent(fw: Firmware) {
    forall a: u64, n: u64 :: !Answered(fw, a, n)
  }

  lemma SilenceDenies(fw: Firmware, address: u64, length: u64)
    requires Silent(fw)
    ensures !CanRead(fw, address, length) && !CanWrite(fw, address, length)
  {
    assert !Answered(fw, address, length);
  }

  // --------------------------------------------- a protocol that is consistent

  datatype AttributeRule = AttributeRule(base: u64, length: u64, attributes: u64)

  predicate RuleActive(r: AttributeRule) {
    r.length != 0 && r.base <= MAX_UINT64 - r.length
  }

  predicate RuleHolds(r: AttributeRule, address: int, length: int) {
    RuleActive(r) && r.base <= address && address + length <= r.base + r.length
  }

  predicate RulesDisjoint(rules: seq<AttributeRule>) {
    forall i, j :: 0 <= i < j < |rules| && RuleActive(rules[i]) && RuleActive(rules[j]) ==>
      rules[i].base + rules[i].length <= rules[j].base || rules[j].base + rules[j].length <= rules[i].base
  }

  function FirstRule(rules: seq<AttributeRule>, i: nat, address: int, length: int): (k: nat)
    requires i <= |rules|
    ensures i <= k <= |rules|
    ensures k < |rules| ==> RuleHolds(rules[k], address, length)
    ensures forall j :: i <= j < k ==> !RuleHolds(rules[j], address, length)
    decreases |rules| - i
  {
    if i == |rules| || RuleHolds(rules[i], address, length) then i
    else FirstRule(rules, i + 1, address, length)
  }

  function RuleReply(rules: seq<AttributeRule>, address: int, length: int): AttributeReply {
    if length <= 0 || address < 0 || address > MAX_UINT64 - length then Refused(InvalidParameter)
    else
      var k := FirstRule(rules, 0, address, length);
      if k == |rules| then Refused(NoMapping) else Reported(Success, rules[k].attributes)
  }

  /** The rule table used by the host tests satisfies the consistency law when its rules are disjoint. */
  lemma DisjointRulesAreConsistent(rules: seq<AttributeRule>)
    requires RulesDisjoint(rules)
    ensures Consistent(Some((a, n) => RuleReply(rules, a, n)))
  {
    var reply := (a: int, n: int) => RuleReply(rules, a, n);
    forall a, n, b, m {:trigger reply(a, n), reply(b, m)} |
      reply(a, n).Reported? && 0 <= a <= b && 0 < m && b + m <= a + n
      ensures reply(b, m) == reply(a, n)
    {
      var i, j := FirstRule(rules, 0, a, n), FirstRule(rules, 0, b, m);
      assert RuleHolds(rules[i], b, m);
      assert j <= i;
    }
  }
}
