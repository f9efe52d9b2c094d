/**
 * The table-seeded fast inverse square root of SceneObject: a seed float is
 * assembled from a computed exponent field and a table of mantissa bytes,
 * then refined by two Newton steps. The bit layout is modelled exactly on
 * bv32; reading bits as a float and the library square root used to fill
 * the table are the uninterpreted operations of Float32.
 */
module FastMath {
  import opened Float32

  // The C# int constants; as bit-vectors, since they serve as shift amounts and masks.
  const LookupBits: bv32 := 8
  const ExpPos: bv32 := 23
  const ExpBias: bv32 := 127
  const LookupPos: bv32 := ExpPos - LookupBits
  const SeedPos: bv32 := ExpPos - 8
  const SqrtTableSize: bv32 := 2 << LookupBits
  const LookupMask: bv32 := SqrtTableSize - 1

  /** The table length as an index bound. */
  const TableLength: nat := 512

  /** Bits 15..22: the only bits a seed-table entry may set. */
  const SeedBitsMask: bv32 := 0x007F_8000

  /** Bits 23..30: the exponent field of a positive float. */
  const ExponentMask: bv32 := 0x7F80_0000

  /** The table index `(a >> 15) & LOOKUP_MASK`: the low exponent bit and the top 8 mantissa bits. */
  function SeedIndex(a: bv32): (k: nat)
    ensures k < TableLength
    ensures k == ((a >> 15) & 0x1FF) as nat
  {
    (Sar(a, LookupPos) & LookupMask) as nat
  }

  /** The biased exponent of the input, `(a >> 23) & 0xFF`. */
  function ExponentField(a: bv32): (e: bv32)
    ensures e <= 0xFF
    ensures e == (a >> 23) & 0xFF
  {
    Sar(a, ExpPos) & 0xFF
  }

  /** `((3*EXP_BIAS-1) - exponent) >> 1 << EXP_POS`: half the negated unbiased exponent, rebiased. */
  function ExponentTerm(a: bv32): (t: bv32)
    ensures t & !ExponentMask == 0
    ensures (t >> 23) as int == (380 - ExponentField(a) as int) / 2
  {
    ExponentHalving(ExponentField(a));
    (((3 * ExpBias - 1) - ExponentField(a)) >> 1) << ExpPos
  }

  /** For a biased exponent e, `(380 - e) >> 1` is the integer half of 380 - e and fits the exponent field. */
  lemma ExponentHalving(e: bv32)
    requires e <= 0xFF
    ensures ((380 - e) >> 1) as int == (380 - e as int) / 2
    ensures (((380 - e) >> 1) << 23) >> 23 == (380 - e) >> 1
    ensures (((380 - e) >> 1) << 23) & !ExponentMask == 0
  {
    assert 380 - e as int == (380 - e) as int;
  }

  /** The bit pattern the table build feeds to the library: exponent 126, mantissa index i << 15. */
  function TableInput(i: nat): (bits: bv32)
    requires i < TableLength
  {
    ((ExpBias - 1) << ExpPos) | ((i as bv32) << LookupPos)
  }

  /** `((fo + (1 << (SEED_POS-2))) >> SEED_POS) & 0xFF) << SEED_POS`: the rounded top mantissa byte, back at SEED_POS. */
  function SeedByte(fo: bv32): (e: bv32)
    ensures e & !SeedBitsMask == 0
  {
    (Sar(fo + (1 << (SeedPos - 2)), SeedPos) & 0xFF) << SeedPos
  }

  /** Table entry i as the loop computes it, from the rounded reciprocal root of its input. */
  function ComputedEntry(i: nat): (e: bv32)
    requires i < TableLength
  {
    SeedByte(BitsOf(RecipSqrt(FloatOfBits(TableInput(i)))))
  }

  /** Entry i of the finished table: entry 256 is overwritten with 0xFF << 15. */
  function TableEntry(i: nat): (e: bv32)
    requires i < TableLength
  {
    if i == TableLength / 2 then (0xFF as bv32) << SeedPos else ComputedEntry(i)
  }

  /** The table as the static constructor leaves it. */
  function SeedTable(): (t: seq<bv32>)
    ensures |t| == TableLength
  {
    seq(TableLength, i requires 0 <= i < TableLength => TableEntry(i))
  }

  /** The static constructor: fills the table in a loop, then patches the middle entry. */
  method InitSeedTable() returns (iSqrt: array<bv32>)
    ensures iSqrt.Length == TableLength
    ensures iSqrt[..] == SeedTable()
  {
    iSqrt := new bv32[TableLength];
    var i := 0;
    while i < TableLength
      invariant 0 <= i <= TableLength
      invariant forall k :: 0 <= k < i ==> iSqrt[k] == ComputedEntry(k)
    {
      var fi := ((ExpBias - 1) << ExpPos) | ((i as bv32) << LookupPos);
      assert fi == TableInput(i);
      var fo := BitsOf(RecipSqrt(FloatOfBits(fi)));
      iSqrt[i] := SeedByte(fo);
      i := i + 1;
    }
    iSqrt[TableLength / 2] := (0xFF as bv32) << SeedPos;
    forall k | 0 <= k < TableLength
      ensures iSqrt[k] == SeedTable()[k]
    {
      assert SeedTable()[k] == TableEntry(k);
    }
  }

  /** The initial estimate's bit pattern: exponent term OR table entry. */
  function Seed(a: bv32): (s: bv32)
  {
    ExponentTerm(a) | SeedTable()[SeedIndex(a)]
  }

  /** One Newton step `r * (1.5 - r*r*y)` with y = x/2. */
  function Refine(r: real, y: real): (r': real)
  {
    r * (1.5 - r * r * y)
  }

  /** SceneObject.InvSqrt: the seed read back as a float, refined twice. */
  function InvSqrt(x: real): (r: real)
  {
    var y := x * 0.5;
    Refine(Refine(FloatOfBits(Seed(BitsOf(x))), y), y)
  }

  /** SceneObject.Sqrt: x times its approximate inverse square root. */
  function Sqrt(x: real): (r: real)
    ensures x == 0.0 ==> r == 0.0
  {
    x * InvSqrt(x)
  }

  /** Every table entry is one byte placed at SEED_POS; the middle one is 0xFF there. */
  lemma SeedTableLayout(k: nat)
    requires k < TableLength
    ensures SeedTable()[k] & !SeedBitsMask == 0
    ensures k == TableLength / 2 ==> SeedTable()[k] == 0xFF << 15
  {
  }

  /** Exponent term and table entry occupy disjoint bits, so the OR keeps both intact. */
  lemma {:induction false} SeedFieldsDisjoint(a: bv32)
    ensures ExponentTerm(a) & SeedTable()[SeedIndex(a)] == 0
    ensures Seed(a) & ExponentMask == ExponentTerm(a)
    ensures Seed(a) & SeedBitsMask == SeedTable()[SeedIndex(a)]
    ensures Seed(a) & 0x8000_7FFF == 0
  {
    var t, e := ExponentTerm(a), SeedTable()[SeedIndex(a)];
    SeedTableLayout(SeedIndex(a));
    assert t & !ExponentMask == 0 && e & !SeedBitsMask == 0;
  }

  /**
   * The table build covers both exponent parities: indices below 256 read
   * floats with exponent 126, the rest exponent 127, each with the index's low
   * byte as the top mantissa byte.
   */
  lemma TableInputLayout(i: nat)
    requires i < TableLength
    ensures TableInput(i) & 0x8000_0000 == 0
    ensures TableInput(i) >> 23 == 126 + ((i as bv32) >> 8)
    ensures (TableInput(i) >> 15) & 0xFF == (i as bv32) & 0xFF
    ensures TableInput(i) & 0x7FFF == 0
  {
  }

  /** The bit-vector table size agrees with the length of the modelled table. */
  lemma TableSizeAgrees()
    ensures SqrtTableSize as int == TableLength
    ensures LookupMask as int == TableLength - 1
  {
  }

  /** The exact inverse square root is a fixed point of the Newton step. */
  lemma RefineFixesExactRoot(r: real, x: real)
    requires r * r * x == 1.0
    ensures Refine(r, x * 0.5) == r
  {
    assert r * r * (x * 0.5) == 0.5;
  }

  /** With an exact seed, both refinements leave it unchanged. */
  lemma InvSqrtKeepsExactSeed(x: real)
    requires FloatOfBits(Seed(BitsOf(x))) * FloatOfBits(Seed(BitsOf(x))) * x == 1.0
    ensures InvSqrt(x) == FloatOfBits(Seed(BitsOf(x)))
  {
    var r := FloatOfBits(Seed(BitsOf(x)));
    RefineFixesExactRoot(r, x);
  }

  /** Sqrt squares back to its argument whenever InvSqrt is exact there. */
  lemma SqrtSquaresBack(x: real)
    requires InvSqrt(x) * InvSqrt(x) * x == 1.0
    ensures Sqrt(x) * Sqrt(x) == x
  {
    var k := InvSqrt(x);
    assert k * k * x == 1.0;
    calc {
      Sqrt(x) * Sqrt(x);
      (x * k) * (x * k);
      { assert (x * k) * (x * k) == x * (k * k * x); }
      x * (k * k * x);
      x * 1.0;
      x;
    }
  }
}
