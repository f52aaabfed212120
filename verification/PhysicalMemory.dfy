/**
  Little-endian byte memory: what a volatile access of a given width reads and
  writes, as functions on the bytes of the address space.
 */
module PhysicalMemory {
  import opened Words

  /** 256^n. */
  function Pow256(n: nat): (r: nat)
    ensures r >= 1
  {
    if n == 0 then 1 else 256 * Pow256(n - 1)
  }

  predicate SupportedWidth(width: int) {
    width == 1 || width == 2 || width == 4 || width == 8
  }

  lemma WidthIsPow2(width: nat)
    requires SupportedWidth(width)
    ensures IsPow2(width)
  {
    assert Pow2(0) == 1 && Pow2(1) == 2 && Pow2(2) == 4 && Pow2(3) == 8;
  }

  function Load(mem: seq<byte>, address: nat, width: nat): nat
    requires address + width <= |mem|
    decreases width
  {
    if width == 0 then 0 else mem[address] + 256 * Load(mem, address + 1, width - 1)
  }

  function Store(mem: seq<byte>, address: nat, width: nat, value: nat): (r: seq<byte>)
    requires address + width <= |mem|
    ensures |r| == |mem|
    decreases width
  {
    if width == 0 then mem
    else Store(mem[address := value % 256], address + 1, width - 1, value / 256)
  }

  lemma {:induction false} LoadBound(mem: seq<byte>, address: nat, width: nat)
    requires address + width <= |mem|
    ensures Load(mem, address, width) < Pow256(width)
    decreases width
  {
    if width > 0 {
      LoadBound(mem, address + 1, width - 1);
    }
  }

  lemma Pow256Values()
    ensures Pow256(1) == 0x100 && Pow256(2) == 0x1_0000 && Pow256(4) == 0x1_0000_0000
    ensures Pow256(8) == TWO64
  {
    assert Pow256(3) == 0x100_0000;
    assert Pow256(5) == 0x100_0000_0000;
    assert Pow256(6) == 0x1_0000_0000_0000;
    assert Pow256(7) == 0x100_0000_0000_0000;
  }

  lemma LoadFitsWord(mem: seq<byte>, address: nat, width: nat)
    requires address + width <= |mem| && SupportedWidth(width)
    ensures Load(mem, address, width) < Pow256(width) <= TWO64
  {
    LoadBound(mem, address, width);
    Pow256Values();
  }

  /** A write touches exactly the bytes of its range. */
  lemma {:induction false} StoreFrame(mem: seq<byte>, address: nat, width: nat, value: nat, x: nat)
    requires address + width <= |mem| && x < |mem|
    ensures x < address || address + width <= x ==> Store(mem, address, width, value)[x] == mem[x]
    decreases width
  {
    if width > 0 {
      StoreFrame(mem[address := value % 256], address + 1, width - 1, value / 256, x);
    }
  }

  /** Reading back a write of the same width gives the value modulo 256^width. */
  lemma {:induction false} LoadAfterStore(mem: seq<byte>, address: nat, width: nat, value: nat)
    requires address + width <= |mem|
    ensures Load(Store(mem, address, width, value), address, width) == value % Pow256(width)
    decreases width
  {
    if width > 0 {
      var m := mem[address := value % 256];
      LoadAfterStore(m, address + 1, width - 1, value / 256);
      StoreFrame(m, address + 1, width - 1, value / 256, address);
      ModStep(value, Pow256(width - 1));
    }
  }

  lemma ModStep(v: nat, m: nat)
    requires m > 0
    ensures v % (256 * m) == v % 256 + 256 * ((v / 256) % m)
  {
    var q, r := (v / 256) / m, (v / 256) % m;
    assert v / 256 == m * q + r;
    assert v == (256 * m) * q + (256 * r + v % 256);
    DivisionUnique(v, 256 * m, q, 256 * r + v % 256);
  }

  /** Writing back what was read changes nothing. */
  lemma {:induction false} StoreOfLoad(mem: seq<byte>, address: nat, width: nat)
    requires address + width <= |mem|
    ensures Store(mem, address, width, Load(mem, address, width)) == mem
    decreases width
  {
    if width > 0 {
      var v := Load(mem, address, width);
      assert v % 256 == mem[address] && v / 256 == Load(mem, address + 1, width - 1);
      assert mem[address := v % 256] == mem;
      StoreOfLoad(mem, address + 1, width - 1);
    }
  }

  lemma Shift256(first: nat, a: nat, p: nat, b: nat)
    ensures first + 256 * (a + p * b) == (first + 256 * a) + (256 * p) * b
  {
  }

  /** A wide read is the little-endian join of its two parts. */
  lemma {:induction false} LoadJoin(mem: seq<byte>, address: nat, low: nat, high: nat)
    requires address + low + high <= |mem|
    ensures Load(mem, address, low + high)
         == Load(mem, address, low) + Pow256(low) * Load(mem, address + low, high)
    decreases low
  {
    if low > 0 {
      LoadJoin(mem, address + 1, low - 1, high);
      var a, p, b := Load(mem, address + 1, low - 1), Pow256(low - 1), Load(mem, address + low, high);
      assert Load(mem, address + 1, low - 1 + high) == a + p * b;
      Shift256(mem[address], a, p, b);
    }
  }

  /** Loads see only the bytes of their range. */
  lemma {:induction false} LoadDependsOnRange(m1: seq<byte>, m2: seq<byte>, address: nat, width: nat)
    requires address + width <= |m1| && address + width <= |m2|
    requires forall x :: address <= x < address + width ==> m1[x] == m2[x]
    ensures Load(m1, address, width) == Load(m2, address, width)
    decreases width
  {
    if width > 0 {
      LoadDependsOnRange(m1, m2, address + 1, width - 1);
    }
  }

  /** The memory effect of one volatile store, byte by byte in place. */
  method StoreInPlace(ram: array<byte>, address: nat, width: nat, value: nat)
    requires address + width <= ram.Length
    modifies ram
    ensures ram[..] == Store(old(ram[..]), address, width, value)
  {
    var rest, i := value, 0;
    while i < width
      invariant i <= width
      invariant Store(ram[..], address + i, width - i, rest) == Store(old(ram[..]), address, width, value)
    {
      ghost var before := ram[..];
      ram[address + i] := rest % 256;
      assert ram[..] == before[address + i := rest % 256];
      rest, i := rest / 256, i + 1;
    }
  }
}
