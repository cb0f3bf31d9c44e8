/**
 * The driver's row checksum: CRC-32 with the reflected polynomial of RFC 1952, section 8.
 *
 * What is proved about rows follows from a few laws of the step that takes the register past one byte:
 * it is linear over exclusive-or, it is a bijection, and a byte folded in after it could have been
 * folded in before it, eight bits further up. The lemmas about rows are stated for any register with
 * those laws; `CRC` is shown to obey them.
 */
module RowCrc {
  type Register = bv32

  const POLYNOMIAL: Register := 0xedb8_8320
  const ALL_ONES: Register := 0xffff_ffff
  const BITS: nat := 8

  // ---------------------------------------------------------------- registers in general

  /** A register of type R fed with bytes of type B; `load(r, b, k)` folds b in, k bytes up. */
  datatype Machine<!R, !B> = Machine(step: R -> R, load: (R, B, nat) -> R)
  {
    function LoadFour(r: R, b0: B, b1: B, b2: B, b3: B): R {
      load(load(load(load(r, b0, 0), b1, 1), b2, 2), b3, 3)
    }
  }

  function Iterate<R>(f: R -> R, x: R, n: nat): R {
    if n == 0 then x else f(Iterate(f, x, n - 1))
  }

  /** The register after a row. */
  function Feed<R, B>(m: Machine<R, B>, r: R, row: seq<B>): R {
    if row == [] then r else m.step(m.load(Feed(m, r, row[..|row| - 1]), row[|row| - 1], 0))
  }

  ghost predicate Injective<R(!new), S>(f: R -> S) {
    forall x, y :: f(x) == f(y) ==> x == y
  }

  ghost predicate Additive<R(!new)>(f: R -> R, plus: (R, R) -> R) {
    forall x, y :: f(plus(x, y)) == plus(f(x), f(y))
  }

  /** The laws that make short bursts visible. */
  ghost predicate Detecting<R(!new), B(!new)>(m: Machine<R, B>) {
    && Injective(m.step)
    && (forall x, y, b :: m.load(x, b, 0) == m.load(y, b, 0) ==> x == y)
    && (forall x, b, k: nat :: k < 3 ==> m.load(m.step(x), b, k) == m.step(m.load(x, b, k + 1)))
    && (forall r, a0, a1, a2, a3, b0, b1, b2, b3 ::
          m.LoadFour(r, a0, a1, a2, a3) == m.LoadFour(r, b0, b1, b2, b3) ==>
          a0 == b0 && a1 == b1 && a2 == b2 && a3 == b3)
  }

  /** The laws of linearity, for an exclusive-or of registers and one of bytes. */
  ghost predicate Linear<R(!new), B(!new)>(m: Machine<R, B>, xorR: (R, R) -> R, xorB: (B, B) -> B) {
    && Additive(m.step, xorR)
    && (forall x, y, a, b :: m.load(xorR(x, y), xorB(a, b), 0) == xorR(m.load(x, a, 0), m.load(y, b, 0)))
  }

  lemma {:induction false} IterateAdditive<R(!new)>(f: R -> R, plus: (R, R) -> R, x: R, y: R, n: nat)
    requires Additive(f, plus)
    ensures Iterate(f, plus(x, y), n) == plus(Iterate(f, x, n), Iterate(f, y, n))
  {
    if n > 0 {
      IterateAdditive(f, plus, x, y, n - 1);
    }
  }

  lemma {:induction false} IterateInjective<R(!new)>(f: R -> R, x: R, y: R, n: nat)
    requires Injective(f) && Iterate(f, x, n) == Iterate(f, y, n)
    ensures x == y
  {
    if n > 0 {
      IterateInjective(f, x, y, n - 1);
    }
  }

  lemma IterateEight<R>(f: R -> R, x0: R, x1: R, x2: R, x3: R, x4: R, x5: R, x6: R, x7: R, x8: R)
    requires f(x0) == x1 && f(x1) == x2 && f(x2) == x3 && f(x3) == x4
    requires f(x4) == x5 && f(x5) == x6 && f(x6) == x7 && f(x7) == x8
    ensures Iterate(f, x0, BITS) == x8
  {
    assert Iterate(f, x0, 2) == x2;
    assert Iterate(f, x0, 4) == x4;
    assert Iterate(f, x0, 6) == x6;
  }

  function Zip<B>(xorB: (B, B) -> B, a: seq<B>, b: seq<B>): (c: seq<B>)
    requires |a| == |b|
    ensures |c| == |a|
  {
    seq(|a|, i requires 0 <= i < |a| => xorB(a[i], b[i]))
  }

  lemma {:induction false} FeedLinear<R(!new), B(!new)>(
    m: Machine<R, B>, xorR: (R, R) -> R, xorB: (B, B) -> B, x: R, y: R, a: seq<B>, b: seq<B>)
    requires Linear(m, xorR, xorB) && |a| == |b|
    ensures Feed(m, xorR(x, y), Zip(xorB, a, b)) == xorR(Feed(m, x, a), Feed(m, y, b))
  {
    if a != [] {
      var n := |a| - 1;
      FeedLinear(m, xorR, xorB, x, y, a[..n], b[..n]);
      assert Zip(xorB, a, b)[..n] == Zip(xorB, a[..n], b[..n]);
    }
  }

  lemma {:induction false} FeedConcat<R, B>(m: Machine<R, B>, r: R, a: seq<B>, b: seq<B>)
    ensures Feed(m, r, a + b) == Feed(m, Feed(m, r, a), b)
  {
    if b == [] {
      assert a + b == a;
    } else {
      var n := |b| - 1;
      assert (a + b)[..|a + b| - 1] == a + b[..n];
      FeedConcat(m, r, a, b[..n]);
    }
  }

  /** Equal bytes after a difference cannot hide it. */
  lemma {:induction false} FeedInjective<R(!new), B(!new)>(m: Machine<R, B>, x: R, y: R, row: seq<B>)
    requires Detecting(m) && Feed(m, x, row) == Feed(m, y, row)
    ensures x == y
  {
    if row != [] {
      FeedInjective(m, x, y, row[..|row| - 1]);
    }
  }

  lemma FeedFour<R, B>(m: Machine<R, B>, r: R, w: seq<B>)
    requires |w| == 4
    ensures Feed(m, r, w)
         == m.step(m.load(m.step(m.load(m.step(m.load(m.step(m.load(r, w[0], 0)), w[1], 0)), w[2], 0)), w[3], 0))
  {
    assert w[..3][..2] == w[..2] && w[..2][..1] == w[..1] && w[..1][..0] == [];
    assert Feed(m, r, w[..1]) == m.step(m.load(r, w[0], 0));
    assert Feed(m, r, w[..2]) == m.step(m.load(Feed(m, r, w[..1]), w[1], 0));
    assert Feed(m, r, w[..3]) == m.step(m.load(Feed(m, r, w[..2]), w[2], 0));
  }

  /** Four bytes are four steps of the register with all of them folded in at once. */
  lemma FourAtOnce<R(!new), B(!new)>(m: Machine<R, B>, r: R, w: seq<B>)
    requires Detecting(m) && |w| == 4
    ensures Feed(m, r, w) == m.step(m.step(m.step(m.step(m.LoadFour(r, w[0], w[1], w[2], w[3])))))
  {
    FeedFour(m, r, w);
    var r0 := m.load(r, w[0], 0);
    var r1 := m.load(r0, w[1], 1);
    var r2 := m.load(r1, w[2], 2);
    assert m.load(m.step(r0), w[1], 0) == m.step(r1);
    assert m.load(m.step(m.step(r1)), w[2], 0) == m.step(m.load(m.step(r1), w[2], 1)) == m.step(m.step(r2));
    var r3 := m.load(r2, w[3], 3);
    assert m.load(m.step(m.step(m.step(r2))), w[3], 0) == m.step(m.load(m.step(m.step(r2)), w[3], 1));
    assert m.load(m.step(m.step(r2)), w[3], 1) == m.step(m.load(m.step(r2), w[3], 2)) == m.step(m.step(r3));
  }

  lemma FourInjective<R(!new), B(!new)>(m: Machine<R, B>, r: R, v: seq<B>, w: seq<B>)
    requires Detecting(m) && |v| == |w| == 4 && Feed(m, r, v) == Feed(m, r, w)
    ensures v == w
  {
    FourAtOnce(m, r, v);
    FourAtOnce(m, r, w);
    assert m.LoadFour(r, v[0], v[1], v[2], v[3]) == m.LoadFour(r, w[0], w[1], w[2], w[3]);
  }

  /** Different short windows leave different registers; shorter ones are padded with the same bytes. */
  lemma ShortInjective<R(!new), B(!new)>(m: Machine<R, B>, r: R, v: seq<B>, w: seq<B>)
    requires Detecting(m) && |v| == |w| <= 4 && Feed(m, r, v) == Feed(m, r, w)
    ensures v == w
  {
    if v != [] {
      var pad := seq(4 - |v|, _ => v[0]);
      FeedConcat(m, r, v, pad);
      FeedConcat(m, r, w, pad);
      FourInjective(m, r, v + pad, w + pad);
      assert v == (v + pad)[..|v|] && w == (w + pad)[..|w|];
    }
  }

  lemma FeedSplit<R, B>(m: Machine<R, B>, r: R, row: seq<B>, start: nat, end: nat)
    requires start <= end <= |row|
    ensures Feed(m, r, row) == Feed(m, Feed(m, Feed(m, r, row[..start]), row[start..end]), row[end..])
  {
    assert row == row[..end] + row[end..] && row[..end] == row[..start] + row[start..end];
    FeedConcat(m, r, row[..end], row[end..]);
    FeedConcat(m, r, row[..start], row[start..end]);
  }

  lemma BurstChangesRegister<R(!new), B(!new)>(m: Machine<R, B>, r: R, a: seq<B>, b: seq<B>, start: nat, end: nat)
    requires Detecting(m) && |a| == |b| && start <= end <= |a| && end - start <= 4
    requires a[..start] == b[..start] && a[end..] == b[end..] && a != b
    ensures Feed(m, r, a) != Feed(m, r, b)
  {
    assert a == a[..start] + a[start..end] + a[end..] && b == b[..start] + b[start..end] + b[end..];
    if Feed(m, r, a) == Feed(m, r, b) {
      FeedSplit(m, r, a, start, end);
      FeedSplit(m, r, b, start, end);
      var mid := Feed(m, r, a[..start]);
      FeedInjective(m, Feed(m, mid, a[start..end]), Feed(m, mid, b[start..end]), a[end..]);
      ShortInjective(m, mid, a[start..end], b[start..end]);
    }
  }

  // ---------------------------------------------------------------- the checksum of the driver

  /** One bit: shift right and fold the polynomial in when a one falls out. */
  function Shift(crc: Register): Register {
    if crc & 1 == 1 then (crc >> 1) ^ POLYNOMIAL else crc >> 1
  }

  /** Takes the register past one byte that has already been folded in. */
  function ByteStep(crc: Register): Register {
    Iterate(Shift, crc, BITS)
  }

  /** A byte placed `up` bytes up in an otherwise clear register. */
  function Placed(b: bv8, up: nat): Register {
    match up
    case 0 => b as Register
    case 1 => (b as Register) << 8
    case 2 => (b as Register) << 16
    case _ => (b as Register) << 24
  }

  function XorRegisters(x: Register, y: Register): Register { x ^ y }

  function XorBytes(x: bv8, y: bv8): bv8 { x ^ y }

  function LoadAt(crc: Register, b: bv8, up: nat): Register {
    XorRegisters(crc, Placed(b, up))
  }

  const CRC: Machine<Register, bv8> := Machine(ByteStep, LoadAt)

  function Crc32(row: seq<bv8>): Register {
    XorRegisters(Feed(CRC, ALL_ONES, row), ALL_ONES)
  }

  /** The driver selects the polynomial with a mask instead of a branch. */
  lemma MaskSelects(crc: Register)
    ensures (crc >> 1) ^ (POLYNOMIAL & (0 - (crc & 1))) == Shift(crc)
  {
    var bit := crc & 1;
    var mask := 0 - bit;
    assert bit == 0 || bit == 1;
    if bit == 0 {
      assert mask == 0;
    } else {
      assert mask == ALL_ONES;
      assert POLYNOMIAL & mask == POLYNOMIAL;
    }
  }

  lemma Complement(x: Register)
    ensures !x == XorRegisters(x, ALL_ONES)
  {
  }

  method ShiftOnce(crc: Register) returns (next: Register)
    ensures next == Shift(crc)
  {
    MaskSelects(crc);
    next := (crc >> 1) ^ (POLYNOMIAL & (0 - (crc & 1)));
  }

  /** The body of the outer loop: fold the byte in, then eight masked shifts. */
  method TakeByte(crc: Register, b: bv8) returns (next: Register)
    ensures next == ByteStep(XorRegisters(crc, Placed(b, 0)))
  {
    next := crc ^ (b as Register);
    ghost var loaded := next;
    for bit := 0 to BITS
      invariant next == Iterate(Shift, loaded, bit)
    {
      next := ShiftOnce(next);
    }
  }

  /** gud_row_crc32. */
  method RowCrc32(data: array<bv8>) returns (crc: Register)
    ensures crc == Crc32(data[..])
  {
    crc := ALL_ONES;
    for index := 0 to data.Length
      invariant crc == Feed(CRC, ALL_ONES, data[..index])
    {
      assert data[..index + 1][..index] == data[..index];
      crc := TakeByte(crc, data[index]);
    }
    assert data[..data.Length] == data[..];
    Complement(crc);
    crc := !crc;
  }

  // ---------------------------------------------------------------- its laws

  lemma XorCommutes(x: Register, y: Register)
    ensures XorRegisters(x, y) == XorRegisters(y, x)
  {
  }

  lemma OddOddLinear(x: Register, y: Register)
    requires x & 1 == 1 && y & 1 == 1
    ensures Shift(XorRegisters(x, y)) == XorRegisters(Shift(x), Shift(y))
  {
  }

  lemma EvenOddLinear(x: Register, y: Register)
    requires x & 1 != 1 && y & 1 == 1
    ensures Shift(XorRegisters(x, y)) == XorRegisters(Shift(x), Shift(y))
  {
  }

  lemma EvenEvenLinear(x: Register, y: Register)
    requires x & 1 != 1 && y & 1 != 1
    ensures Shift(XorRegisters(x, y)) == XorRegisters(Shift(x), Shift(y))
  {
  }

  lemma ShiftLinear(x: Register, y: Register)
    ensures Shift(XorRegisters(x, y)) == XorRegisters(Shift(x), Shift(y))
  {
    if x & 1 == 1 && y & 1 == 1 {
      OddOddLinear(x, y);
    } else if x & 1 == 1 {
      EvenOddLinear(y, x);
      XorCommutes(x, y);
      XorCommutes(Shift(x), Shift(y));
    } else if y & 1 == 1 {
      EvenOddLinear(x, y);
    } else {
      EvenEvenLinear(x, y);
    }
  }

  /** The polynomial's top bit is set, so the bit that fell out can be read back. */
  lemma ShiftInjective(x: Register, y: Register)
    ensures Shift(x) == Shift(y) ==> x == y
  {
  }

  lemma ShiftAdditive()
    ensures Additive(Shift, XorRegisters)
  {
    forall x: Register, y: Register
      ensures Shift(XorRegisters(x, y)) == XorRegisters(Shift(x), Shift(y))
    {
      ShiftLinear(x, y);
    }
  }

  lemma ShiftIsInjective()
    ensures Injective(Shift)
  {
    forall x: Register, y: Register
      ensures Shift(x) == Shift(y) ==> x == y
    {
      ShiftInjective(x, y);
    }
  }

  lemma ByteStepAdditive()
    ensures Additive(ByteStep, XorRegisters)
  {
    forall x: Register, y: Register
      ensures ByteStep(XorRegisters(x, y)) == XorRegisters(ByteStep(x), ByteStep(y))
    {
      ShiftAdditive();
      IterateAdditive(Shift, XorRegisters, x, y, BITS);
    }
  }

  lemma ByteStepInjective()
    ensures Injective(ByteStep)
  {
    forall x: Register, y: Register | ByteStep(x) == ByteStep(y)
      ensures x == y
    {
      ShiftIsInjective();
      IterateInjective(Shift, x, y, BITS);
    }
  }

  lemma EmptyShiftsLow(x: Register)
    requires x & 0xff == 0
    ensures Shift(x) == x >> 1 && Shift(x >> 1) == x >> 2 && Shift(x >> 2) == x >> 3 && Shift(x >> 3) == x >> 4
  {
  }

  lemma EmptyShiftsHigh(x: Register)
    requires x & 0xff == 0
    ensures Shift(x >> 4) == x >> 5 && Shift(x >> 5) == x >> 6 && Shift(x >> 6) == x >> 7 && Shift(x >> 7) == x >> 8
  {
  }

  /** Eight shifts of a register whose lowest byte is clear lose nothing. */
  lemma EmptyByteStep(x: Register)
    requires x & 0xff == 0
    ensures ByteStep(x) == x >> 8
  {
    EmptyShiftsLow(x);
    EmptyShiftsHigh(x);
    IterateEight(Shift, x, x >> 1, x >> 2, x >> 3, x >> 4, x >> 5, x >> 6, x >> 7, x >> 8);
  }

  lemma PlacedMovesDown(b: bv8)
    ensures Placed(b, 1) & 0xff == 0 && Placed(b, 1) >> 8 == Placed(b, 0)
    ensures Placed(b, 2) & 0xff == 0 && Placed(b, 2) >> 8 == Placed(b, 1)
    ensures Placed(b, 3) & 0xff == 0 && Placed(b, 3) >> 8 == Placed(b, 2)
  {
  }

  lemma PlacedStep(b: bv8, up: nat)
    requires up < 3
    ensures ByteStep(Placed(b, up + 1)) == Placed(b, up)
  {
    PlacedMovesDown(b);
    EmptyByteStep(Placed(b, up + 1));
  }

  /** Exclusive-or with a placed byte commutes with the step that moves it down. */
  lemma LoadEarly(x: Register, b: bv8, up: nat)
    requires up < 3 && Additive(ByteStep, XorRegisters)
    ensures LoadAt(ByteStep(x), b, up) == ByteStep(LoadAt(x, b, up + 1))
  {
    PlacedStep(b, up);
    var p := Placed(b, up + 1);
    assert ByteStep(XorRegisters(x, p)) == XorRegisters(ByteStep(x), ByteStep(p));
  }

  /** The four bytes of a word can be read back from the register they were folded into. */
  function Loaded(r: bv32, b0: bv8, b1: bv8, b2: bv8, b3: bv8): bv32 {
    (((r ^ (b0 as bv32)) ^ ((b1 as bv32) << 8)) ^ ((b2 as bv32) << 16)) ^ ((b3 as bv32) << 24)
  }

  lemma LoadedBytes(r: bv32, b0: bv8, b1: bv8, b2: bv8, b3: bv8)
    ensures ((Loaded(r, b0, b1, b2, b3) ^ r) & 0xff) as bv8 == b0
    ensures (((Loaded(r, b0, b1, b2, b3) ^ r) >> 8) & 0xff) as bv8 == b1
    ensures (((Loaded(r, b0, b1, b2, b3) ^ r) >> 16) & 0xff) as bv8 == b2
    ensures (((Loaded(r, b0, b1, b2, b3) ^ r) >> 24) & 0xff) as bv8 == b3
  {
  }

  lemma LoadAt0(r: bv32, b: bv8)
    ensures LoadAt(r, b, 0) == r ^ (b as bv32)
  {
  }

  lemma LoadAt1(r: bv32, b: bv8)
    ensures LoadAt(r, b, 1) == r ^ ((b as bv32) << 8)
  {
  }

  lemma LoadAt2(r: bv32, b: bv8)
    ensures LoadAt(r, b, 2) == r ^ ((b as bv32) << 16)
  {
  }

  lemma LoadAt3(r: bv32, b: bv8)
    ensures LoadAt(r, b, 3) == r ^ ((b as bv32) << 24)
  {
  }

  lemma LoadedIsLoadFour(r: bv32, b0: bv8, b1: bv8, b2: bv8, b3: bv8)
    ensures CRC.LoadFour(r, b0, b1, b2, b3) == Loaded(r, b0, b1, b2, b3)
  {
    LoadAt0(r, b0);
    LoadAt1(LoadAt(r, b0, 0), b1);
    LoadAt2(LoadAt(LoadAt(r, b0, 0), b1, 1), b2);
    LoadAt3(LoadAt(LoadAt(LoadAt(r, b0, 0), b1, 1), b2, 2), b3);
  }

  lemma LoadFourInjective(r: Register, a0: bv8, a1: bv8, a2: bv8, a3: bv8, b0: bv8, b1: bv8, b2: bv8, b3: bv8)
    requires CRC.LoadFour(r, a0, a1, a2, a3) == CRC.LoadFour(r, b0, b1, b2, b3)
    ensures a0 == b0 && a1 == b1 && a2 == b2 && a3 == b3
  {
    LoadedIsLoadFour(r, a0, a1, a2, a3);
    LoadedIsLoadFour(r, b0, b1, b2, b3);
    LoadedBytes(r, a0, a1, a2, a3);
    LoadedBytes(r, b0, b1, b2, b3);
  }

  lemma LoadInjective(x: Register, y: Register, b: bv8)
    requires LoadAt(x, b, 0) == LoadAt(y, b, 0)
    ensures x == y
  {
  }

  lemma LoadLinear(x: Register, y: Register, a: bv8, b: bv8)
    ensures LoadAt(XorRegisters(x, y), XorBytes(a, b), 0) == XorRegisters(LoadAt(x, a, 0), LoadAt(y, b, 0))
  {
  }

  /** The driver's register obeys the laws that make short bursts visible. */
  lemma CrcDetects()
    ensures Detecting(CRC)
  {
    ByteStepInjective();
    ByteStepAdditive();
    forall x: Register, y: Register, b: bv8 | LoadAt(x, b, 0) == LoadAt(y, b, 0)
      ensures x == y
    {
      LoadInjective(x, y, b);
    }
    forall x: Register, b: bv8, k: nat | k < 3
      ensures LoadAt(ByteStep(x), b, k) == ByteStep(LoadAt(x, b, k + 1))
    {
      LoadEarly(x, b, k);
    }
    forall r: Register, a0: bv8, a1: bv8, a2: bv8, a3: bv8, b0: bv8, b1: bv8, b2: bv8, b3: bv8
      | CRC.LoadFour(r, a0, a1, a2, a3) == CRC.LoadFour(r, b0, b1, b2, b3)
      ensures a0 == b0 && a1 == b1 && a2 == b2 && a3 == b3
    {
      LoadFourInjective(r, a0, a1, a2, a3, b0, b1, b2, b3);
    }
  }

  /** It is linear over exclusive-or. */
  lemma CrcIsLinear()
    ensures Linear(CRC, XorRegisters, XorBytes)
  {
    ByteStepAdditive();
    forall x: Register, y: Register, a: bv8, b: bv8
      ensures LoadAt(XorRegisters(x, y), XorBytes(a, b), 0) == XorRegisters(LoadAt(x, a, 0), LoadAt(y, b, 0))
    {
      LoadLinear(x, y, a, b);
    }
  }

  // ---------------------------------------------------------------- what the checksum promises

  lemma CancelComplements(p: Register, q: Register, r: Register)
    ensures (p ^ ALL_ONES) ^ (q ^ ALL_ONES) ^ (r ^ ALL_ONES) == ((p ^ q) ^ r) ^ ALL_ONES
    ensures (ALL_ONES ^ ALL_ONES) ^ ALL_ONES == ALL_ONES
  {
  }

  /** crc(a) ^ crc(b) ^ crc(c) == crc(a ^ b ^ c) for rows of one length. */
  lemma CrcLinear(a: seq<bv8>, b: seq<bv8>, c: seq<bv8>)
    requires |a| == |b| == |c|
    ensures Crc32(a) ^ Crc32(b) ^ Crc32(c) == Crc32(Zip(XorBytes, Zip(XorBytes, a, b), c))
  {
    CrcIsLinear();
    FeedLinear(CRC, XorRegisters, XorBytes, ALL_ONES, ALL_ONES, a, b);
    FeedLinear(CRC, XorRegisters, XorBytes, XorRegisters(ALL_ONES, ALL_ONES), ALL_ONES, Zip(XorBytes, a, b), c);
    CancelComplements(Feed(CRC, ALL_ONES, a), Feed(CRC, ALL_ONES, b), Feed(CRC, ALL_ONES, c));
  }

  lemma ComplementInjective(x: Register, y: Register)
    ensures XorRegisters(x, ALL_ONES) == XorRegisters(y, ALL_ONES) ==> x == y
  {
  }

  /** Rows of one length that differ only within four consecutive bytes never have equal checksums. */
  lemma BurstDetected(a: seq<bv8>, b: seq<bv8>, start: nat, end: nat)
    requires |a| == |b| && start <= end <= |a| && end - start <= 4
    requires a[..start] == b[..start] && a[end..] == b[end..] && a != b
    ensures Crc32(a) != Crc32(b)
  {
    CrcDetects();
    BurstChangesRegister(CRC, ALL_ONES, a, b, start, end);
    ComplementInjective(Feed(CRC, ALL_ONES, a), Feed(CRC, ALL_ONES, b));
  }

  // ---------------------------------------------------------------- the polynomial and the conventions

  /** Eight shifts take a register with a byte folded in past it. */
  lemma Passes(
    r: Register, b: bv8, x0: Register, x1: Register, x2: Register, x3: Register, x4: Register, x5: Register,
    x6: Register, x7: Register, x8: Register)
    requires r ^ (b as Register) == x0 && Shift(x0) == x1 && Shift(x1) == x2 && Shift(x2) == x3 && Shift(x3) == x4
    requires Shift(x4) == x5 && Shift(x5) == x6 && Shift(x6) == x7 && Shift(x7) == x8
    ensures ByteStep(LoadAt(r, b, 0)) == x8
  {
    LoadAt0(r, b);
    IterateEight(Shift, x0, x1, x2, x3, x4, x5, x6, x7, x8);
  }

  lemma FeedOne(row: seq<bv8>, b: bv8, r: Register, next: Register)
    requires Feed(CRC, ALL_ONES, row) == r && ByteStep(LoadAt(r, b, 0)) == next
    ensures Feed(CRC, ALL_ONES, row + [b]) == next
  {
    assert (row + [b])[..|row|] == row;
  }

  /** The check value of the CRC-32 of RFC 1952: the checksum of the digits 1 to 9. */
  lemma CheckValue()
    ensures Crc32([] + [0x31] + [0x32] + [0x33] + [0x34] + [0x35] + [0x36] + [0x37] + [0x38] + [0x39]) == 0xcbf4_3926
  {
    Passes(0xffffffff, 0x31, 0xffffffce, 0x7fffffe7, 0xd2477cd3, 0x849b3d49, 0xaff51d84,
           0x57fa8ec2, 0x2bfd4761, 0xf8462090, 0x7c231048);
    Passes(0x7c231048, 0x32, 0x7c23107a, 0x3e11883d, 0xf2b0473e, 0x7958239f, 0xd11492ef,
           0x8532ca57, 0xaf21e60b, 0xba287025, 0xb0acbb32);
    Passes(0xb0acbb32, 0x33, 0xb0acbb01, 0xb5eedea0, 0x5af76f50, 0x2d7bb7a8, 0x16bddbd4,
           0x0b5eedea, 0x05af76f5, 0xef6f385a, 0x77b79c2d);
    Passes(0x77b79c2d, 0x34, 0x77b79c19, 0xd6634d2c, 0x6b31a696, 0x3598d34b, 0xf774ea85,
           0x9602f662, 0x4b017b31, 0xc8383eb8, 0x641c1f5c);
    Passes(0x641c1f5c, 0x35, 0x641c1f69, 0xdfb68c94, 0x6fdb464a, 0x37eda325, 0xf64e52b2,
           0x7b272959, 0xd02b178c, 0x68158bc6, 0x340ac5e3);
    Passes(0x340ac5e3, 0x36, 0x340ac5d5, 0xf7bde1ca, 0x7bdef0e5, 0xd057fb52, 0x682bfda9,
           0xd9ad7df4, 0x6cd6befa, 0x366b5f7d, 0xf68d2c9e);
    Passes(0xf68d2c9e, 0x37, 0xf68d2ca9, 0x96fe1574, 0x4b7f0aba, 0x25bf855d, 0xff67418e,
           0x7fb3a0c7, 0xd2615343, 0x84882a81, 0xaffc9660);
    Passes(0xaffc9660, 0x38, 0xaffc9658, 0x57fe4b2c, 0x2bff2596, 0x15ff92cb, 0xe7474a45,
           0x9e1b2602, 0x4f0d9301, 0xca3e4aa0, 0x651f2550);
    Passes(0x651f2550, 0x39, 0x651f2569, 0xdf371194, 0x6f9b88ca, 0x37cdc465, 0xf65e6112,
           0x7b2f3089, 0xd02f1b64, 0x68178db2, 0x340bc6d9);
    FeedOne([], 0x31, 0xffffffff, 0x7c231048);
    FeedOne([] + [0x31], 0x32, 0x7c231048, 0xb0acbb32);
    FeedOne([] + [0x31] + [0x32], 0x33, 0xb0acbb32, 0x77b79c2d);
    FeedOne([] + [0x31] + [0x32] + [0x33], 0x34, 0x77b79c2d, 0x641c1f5c);
    FeedOne([] + [0x31] + [0x32] + [0x33] + [0x34], 0x35, 0x641c1f5c, 0x340ac5e3);
    FeedOne([] + [0x31] + [0x32] + [0x33] + [0x34] + [0x35], 0x36, 0x340ac5e3, 0xf68d2c9e);
    FeedOne([] + [0x31] + [0x32] + [0x33] + [0x34] + [0x35] + [0x36], 0x37, 0xf68d2c9e, 0xaffc9660);
    FeedOne([] + [0x31] + [0x32] + [0x33] + [0x34] + [0x35] + [0x36] + [0x37], 0x38, 0xaffc9660, 0x651f2550);
    FeedOne([] + [0x31] + [0x32] + [0x33] + [0x34] + [0x35] + [0x36] + [0x37] + [0x38], 0x39, 0x651f2550, 0x340bc6d9);
  }
}
