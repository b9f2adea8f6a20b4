/**
 * The three-way interleaved CRC-32C of lib/utils/crc32_sse42.c, in its 64-bit form, with the code that
 * builds its operators.
 */
module CrcSse42 {
  import opened Gf2
  import opened CrcSpec
  import opened CrcTables

  const POLY: u32 := CRC32C_POLY
  const LONG: nat := 128
  const SHORT: nat := 64

  // ---------------------------------------------------------------- matrices over GF(2)

  /** The product of a matrix, given by its columns, and a vector. */
  function MatVec(mat: seq<u32>, vec: nat): nat {
    if mat == [] then 0 else Xor(if vec % 2 == 1 then mat[0] else 0, MatVec(mat[1..], vec / 2))
  }

  lemma {:induction false} MatVecZero(mat: seq<u32>)
    ensures MatVec(mat, 0) == 0
  {
    if mat != [] {
      MatVecZero(mat[1..]);
    }
  }

  lemma {:induction false} MatVecBound(mat: seq<u32>, vec: nat)
    ensures MatVec(mat, vec) < 0x1_0000_0000
  {
    if mat != [] {
      MatVecBound(mat[1..], vec / 2);
      XorWord(if vec % 2 == 1 then mat[0] else 0, MatVec(mat[1..], vec / 2));
    }
  }

  lemma TermXor(m: nat, a: nat, b: nat)
    ensures (if Xor(a, b) % 2 == 1 then m else 0)
         == Xor(if a % 2 == 1 then m else 0, if b % 2 == 1 then m else 0)
  {
    XorHalf(a, b);
    XorZero(m);
    XorSelf(m);
  }

  /** Every matrix is a linear operator. */
  lemma {:induction false} MatVecXor(mat: seq<u32>, a: nat, b: nat)
    ensures MatVec(mat, Xor(a, b)) == Xor(MatVec(mat, a), MatVec(mat, b))
  {
    if mat == [] {
    } else {
      TermXor(mat[0], a, b);
      XorHalf(a, b);
      hide Xor;
      MatVecXor(mat[1..], a / 2, b / 2);
      XorSwap(if a % 2 == 1 then mat[0] else 0, if b % 2 == 1 then mat[0] else 0,
              MatVec(mat[1..], a / 2), MatVec(mat[1..], b / 2));
    }
  }

  method MatrixTimes(mat: array<u32>, vec0: u32) returns (sum: u32)
    requires vec0 < Pow2(mat.Length)
    ensures sum == MatVec(mat[..], vec0)
  {
    hide Xor;
    sum := 0;
    var vec: nat, i: nat := vec0, 0;
    XorZero(MatVec(mat[..], vec0));
    assert mat[0..] == mat[..];
    while vec > 0
      invariant i <= mat.Length && vec < Pow2(mat.Length - i)
      invariant Xor(sum, MatVec(mat[i..], vec)) == MatVec(mat[..], vec0)
    {
      var term := if vec % 2 == 1 then mat[i] else 0;
      assert mat[i..][1..] == mat[i + 1..];
      XorAssoc(sum, term, MatVec(mat[i + 1..], vec / 2));
      XorZero(sum);
      XorWord(sum, term);
      if vec % 2 == 1 {
        sum := Xor(sum, mat[i]);
      }
      vec, i := vec / 2, i + 1;
    }
    MatVecZero(mat[i..]);
    XorZero(sum);
  }

  function Apply(mat: seq<u32>, vec: nat): (w: u32)
    ensures w == MatVec(mat, vec)
  {
    MatVecBound(mat, vec);
    MatVec(mat, vec)
  }

  /** The product of two matrices, column by column. */
  function Product(mat: seq<u32>, cols: seq<u32>): (r: seq<u32>)
    ensures |r| == |cols|
    ensures forall i :: 0 <= i < |cols| ==> r[i] == MatVec(mat, cols[i])
  {
    seq<u32>(|cols|, i requires 0 <= i < |cols| => Apply(mat, cols[i]))
  }

  /** The product is the composition of the two operators. */
  lemma {:induction false} ProductComposes(mat: seq<u32>, cols: seq<u32>, vec: nat)
    ensures MatVec(Product(mat, cols), vec) == MatVec(mat, MatVec(cols, vec))
  {
    if cols == [] {
      MatVecZero(mat);
    } else {
      var term, rest := if vec % 2 == 1 then cols[0] else 0, MatVec(cols[1..], vec / 2);
      assert Product(mat, cols)[1..] == Product(mat, cols[1..]);
      ProductComposes(mat, cols[1..], vec / 2);
      MatVecXor(mat, term, rest);
      MatVecZero(mat);
    }
  }

  method MatrixSquare(square: array<u32>, mat: array<u32>)
    requires square.Length == mat.Length == 32 && square != mat
    modifies square
    ensures square[..] == Product(mat[..], mat[..])
  {
    for n := 0 to 32
      invariant forall i :: 0 <= i < n ==> square[i] == MatVec(mat[..], mat[i])
    {
      ShlWord(1);
      square[n] := MatrixTimes(mat, mat[n]);
    }
  }

  // ---------------------------------------------------------------- zeros operators

  /** mat is the operator that appends n zero bits: column i is what becomes of bit i. */
  predicate IsZerosOp(mat: seq<u32>, n: nat) {
    |mat| == 32 && forall i :: 0 <= i < 32 ==> mat[i] == Zeros(POLY, n, Shl(1, i))
  }

  lemma {:induction false} ZerosOpFrom(mat: seq<u32>, n: nat, k: nat, v: nat)
    requires IsZerosOp(mat, n) && k <= 32 && v < Pow2(32 - k)
    ensures MatVec(mat[k..], v) == Zeros(POLY, n, Shl(v, k))
    decreases 32 - k
  {
    if k == 32 {
      ZerosOfZero(POLY, n);
      ShlZero(32);
    } else {
      ZerosOpFrom(mat, n, k + 1, v / 2);
      WordSplit(v);
      assert mat[k..][1..] == mat[k + 1..];
      var h := v / 2;
      assert Shl(h, k + 1) == Shl(2 * h, k) by { ShlAdd(h, k, 1); }
      ShlXor(v % 2, 2 * h, k);
      ZerosXor(POLY, n, Shl(v % 2, k), Shl(2 * h, k));
      ShlZero(k);
      ZerosOfZero(POLY, n);
    }
  }

  lemma {:induction false} ShlZero(n: nat)
    ensures Shl(0, n) == 0
  {
    if n > 0 {
      ShlZero(n - 1);
    }
  }

  /** The matrix does to every register what its zero bits would do. */
  lemma ZerosOpApplies(mat: seq<u32>, n: nat, v: u32)
    requires IsZerosOp(mat, n)
    ensures MatVec(mat, v) == Zeros(POLY, n, v)
  {
    ShlWord(1);
    ZerosOpFrom(mat, n, 0, v);
    assert mat[0..] == mat;
  }

  /** Squaring doubles the number of zeros. */
  lemma ZerosOpSquare(mat: seq<u32>, n: nat)
    requires IsZerosOp(mat, n)
    ensures IsZerosOp(Product(mat, mat), 2 * n)
  {
    forall i | 0 <= i < 32
      ensures Product(mat, mat)[i] == Zeros(POLY, 2 * n, Shl(1, i))
    {
      ZerosOpApplies(mat, n, mat[i]);
      ZerosAdd(POLY, n, n, Shl(1, i));
    }
  }

  lemma StepUnit(p: nat, i: nat)
    ensures Step(p, Shl(1, i)) == if i == 0 then p else Shl(1, i - 1)
  {
    XorZero(p);
  }

  lemma ZerosOpOne(mat: seq<u32>)
    requires |mat| == 32 && mat[0] == POLY
    requires forall i :: 1 <= i < 32 ==> mat[i] == Shl(1, i - 1)
    ensures IsZerosOp(mat, 1)
  {
    hide Step;
    forall i | 0 <= i < 32
      ensures mat[i] == Zeros(POLY, 1, Shl(1, i))
    {
      StepUnit(POLY, i);
    }
  }

  /** The exponent of the largest power of two that is at most max(n, 1). */
  function FloorLog2(n: nat): (k: nat)
    ensures Pow2(k) <= (if n == 0 then 1 else n) < 2 * Pow2(k)
  {
    if n <= 1 then 0 else 1 + FloorLog2(n / 2)
  }

  method OneZeroOp(odd: array<u32>) returns (ghost k: nat)
    requires odd.Length == 32
    modifies odd
    ensures k == 0 && IsZerosOp(odd[..], Pow2(k))
  {
    hide IsZerosOp;
    odd[0] := POLY;
    var row: u32 := 1;
    for n := 1 to 32
      invariant n < 32 ==> row == Shl(1, n - 1)
      invariant odd[0] == POLY
      invariant forall i :: 1 <= i < n ==> odd[i] == Shl(1, i - 1)
    {
      odd[n] := row;
      Pow2Monotone(n, 31);
      Pow2Top();
      row := 2 * row % 0x1_0000_0000;
    }
    ZerosOpOne(odd[..]);
    k := 0;
  }

  lemma Pow2Top()
    ensures Pow2(31) == 0x8000_0000
  {
    ShlWord(1);
    assert Pow2(32) == 2 * Pow2(31);
  }

  /** One squaring, as a step from 2^k zero bits to 2^(k + 1). */
  method DoubleOp(square: array<u32>, mat: array<u32>, ghost k: nat)
    requires square.Length == mat.Length == 32 && square != mat
    requires IsZerosOp(mat[..], Pow2(k))
    modifies square
    ensures IsZerosOp(square[..], Pow2(k + 1))
  {
    MatrixSquare(square, mat);
    ZerosOpSquare(mat[..], Pow2(k));
  }

  method ZerosOp(even: array<u32>, len0: nat)
    requires even.Length == 32
    modifies even
    ensures IsZerosOp(even[..], Pow2(3 + FloorLog2(len0)))
  {
    hide IsZerosOp, Pow2;
    var odd := new u32[32];
    ghost var k: nat := OneZeroOp(odd);
    DoubleOp(even, odd, k);
    DoubleOp(odd, even, k + 1);
    var len := len0;
    k := k + 2;
    while true
      invariant IsZerosOp(odd[..], Pow2(k))
      invariant k + 1 + FloorLog2(len) == 3 + FloorLog2(len0)
      decreases len
    {
      DoubleOp(even, odd, k);
      len := len / 2;
      if len == 0 {
        assert k + 1 == 3 + FloorLog2(len0);
        return;
      }
      DoubleOp(odd, even, k + 1);
      k := k + 2;
      len := len / 2;
      if len == 0 {
        assert k == 3 + FloorLog2(len0);
        break;
      }
    }
    ghost var answer := odd[..];
    for n := 0 to 32
      modifies even
      invariant forall i :: 0 <= i < n ==> even[i] == answer[i]
    {
      even[n] := odd[n];
    }
    assert even[..] == answer;
  }

  // ---------------------------------------------------------------- lookup tables

  /** The value that n zero bits make of a register whose byte j alone is set, to i. */
  ghost function Entry(n: nat, j: nat, i: nat): nat {
    Zeros(POLY, n, Shl(i, 8 * j))
  }

  ghost predicate IsZerosTable(zeros: array2<u32>, n: nat)
    reads zeros
  {
    && zeros.Length0 == 4 && zeros.Length1 == 256
    && forall j, i :: 0 <= j < 4 && 0 <= i < 256 ==> zeros[j, i] == Entry(n, j, i)
  }

  method OperatorTimes(op: array<u32>, vec: u32, ghost n: nat, ghost j: nat, ghost i: nat) returns (w: u32)
    requires IsZerosOp(op[..], n) && vec == Shl(i, 8 * j)
    ensures w == Entry(n, j, i)
  {
    ShlWord(1);
    w := MatrixTimes(op, vec);
    ZerosOpApplies(op[..], n, vec);
  }

  method ZerosTable(zeros: array2<u32>, len: nat)
    requires zeros.Length0 == 4 && zeros.Length1 == 256
    modifies zeros
    ensures IsZerosTable(zeros, Pow2(3 + FloorLog2(len)))
  {
    var op := new u32[32];
    ZerosOp(op, len);
    ghost var k := Pow2(3 + FloorLog2(len));
    hide Entry, IsZerosOp, Pow2, FloorLog2;
    for n := 0 to 256
      modifies zeros
      invariant forall j, i :: 0 <= j < 4 && 0 <= i < n ==> zeros[j, i] == Entry(k, j, i)
    {
      assert IsZerosOp(op[..], k);
      FillColumn(zeros, op, n, k);
    }
  }

  /** The body of the loop over a table. */
  method FillColumn(zeros: array2<u32>, op: array<u32>, n: nat, ghost k: nat)
    requires zeros.Length0 == 4 && zeros.Length1 == 256 && n < 256
    requires IsZerosOp(op[..], k)
    modifies zeros
    ensures forall j :: 0 <= j < 4 ==> zeros[j, n] == Entry(k, j, n)
    ensures forall j, i :: 0 <= j < 4 && 0 <= i < 256 && i != n ==> zeros[j, i] == old(zeros[j, i])
  {
    hide Entry, IsZerosOp;
    ShlWord(n);
    zeros[0, n] := OperatorTimes(op, n, k, 0, n);
    zeros[1, n] := OperatorTimes(op, 0x100 * n, k, 1, n);
    zeros[2, n] := OperatorTimes(op, 0x1_0000 * n, k, 2, n);
    zeros[3, n] := OperatorTimes(op, 0x100_0000 * n, k, 3, n);
  }

  function Shift(zeros: array2<u32>, crc: u32): (r: nat)
    requires zeros.Length0 == 4 && zeros.Length1 == 256
    reads zeros
  {
    Xor(Xor(Xor(zeros[0, crc % 0x100], zeros[1, crc / 0x100 % 0x100]),
            zeros[2, crc / 0x1_0000 % 0x100]),
        zeros[3, crc / 0x100_0000])
  }

  /** Four lookups are the operator. */
  lemma ShiftIsZeros(zeros: array2<u32>, n: nat, crc: u32)
    requires IsZerosTable(zeros, n)
    ensures Shift(zeros, crc) == Zeros(POLY, n, crc) < 0x1_0000_0000
  {
    hide Zeros, Xor;
    ShlWord(crc % 0x100);
    ShlWord(crc / 0x100 % 0x100);
    ShlWord(crc / 0x1_0000 % 0x100);
    ShlWord(crc / 0x100_0000);
    ZerosBytes(POLY, n, crc);
    ZerosBound(POLY, n, crc);
  }

  lemma {:induction false} FloorLog2Pow2(k: nat)
    ensures FloorLog2(Pow2(k)) == k
  {
    if k > 0 {
      FloorLog2Pow2(k - 1);
    }
  }

  /** For a power of two the operator stands for that many zero bytes. */
  lemma ZerosOfLength(len: nat, k: nat)
    requires len == Pow2(k)
    ensures Pow2(3 + FloorLog2(len)) == 8 * len
  {
    FloorLog2Pow2(k);
    assert Pow2(k + 1) == 2 * len;
    assert Pow2(k + 2) == 4 * len;
    assert Pow2(k + 3) == 8 * len;
  }

  lemma BlockLengths()
    ensures LONG == Pow2(7) && SHORT == Pow2(6)
  {
    assert Pow2(4) == 16;
  }

  /** The tables for one and for two blocks, for a block length that is a power of two. */
  method BlockTables(one: array2<u32>, two: array2<u32>, block: nat)
    requires one.Length0 == two.Length0 == 4 && one.Length1 == two.Length1 == 256 && one != two
    requires exists k: nat :: block == Pow2(k)
    modifies one, two
    ensures IsZerosTable(one, 8 * block) && IsZerosTable(two, 16 * block)
  {
    ghost var k: nat :| block == Pow2(k);
    assert 2 * block == Pow2(k + 1);
    hide *;
    ZerosOfLength(block, k);
    ZerosOfLength(2 * block, k + 1);
    ZerosTable(one, block);
    ZerosTable(two, 2 * block);
  }

  // ---------------------------------------------------------------- the instructions

  /** crc32b: one byte enters the register. */
  function MmCrc32U8(x: u32, y: u8): nat {
    Crc(POLY, x, BitsOf(y, 8))
  }

  /** crc32q: 64 bits enter the register, which is the low half of the first operand; the result is zero-extended. */
  function MmCrc32U64(x: u64, y: u64): nat {
    Crc(POLY, x % 0x1_0000_0000, BitsOf(y, 64))
  }

  lemma U8IsByte(x: u32, y: u8)
    ensures MmCrc32U8(x, y) == CrcBytes(POLY, x, [y]) < 0x1_0000_0000
  {
    LoadBits([y]);
    assert Load([y]) == y;
    CrcBytesBound(POLY, x, [y]);
  }

  lemma U64IsBytes(x: u32, s: seq<u8>)
    requires |s| == 8
    ensures Load(s) < 0x1_0000_0000_0000_0000
    ensures MmCrc32U64(x, Load(s)) == CrcBytes(POLY, x, s) < 0x1_0000_0000
  {
    LoadBits(s);
    LoadBound(s);
    Pow2DoubleWord();
    CrcBytesBound(POLY, x, s);
    hide Shl, Load, Crc, Message, BitsOf;
  }

  // ---------------------------------------------------------------- three lanes

  /** Joining three lanes of n bytes: the sum of the accumulator and the first lane is the true register. */
  lemma JoinLanes(crc: nat, crc0: nat, a: seq<u8>, b: seq<u8>, c: seq<u8>, n: nat)
    requires |a| == |b| == |c| == n
    ensures
      var first := Xor(Zeros(POLY, 8 * n, crc), CrcBytes(POLY, crc0, a));
      var second := Zeros(POLY, 8 * n, CrcBytes(POLY, 0, b));
      Xor(Xor(Zeros(POLY, 16 * n, first), second), CrcBytes(POLY, 0, c))
        == CrcBytes(POLY, Xor(crc, crc0), a + b + c)
  {
    hide Zeros, Xor, CrcBytes;
    var first, lane1 := CrcBytes(POLY, Xor(crc, crc0), a), CrcBytes(POLY, 0, b);
    CrcBytesXor(POLY, crc, crc0, a);
    CrcBytesAppend(POLY, Xor(crc, crc0), a, b);
    XorZero(first);
    CrcBytesXor(POLY, first, 0, b);
    var both := CrcBytes(POLY, first, b);
    CrcBytesAppend(POLY, Xor(crc, crc0), a + b, c);
    XorZero(both);
    CrcBytesXor(POLY, both, 0, c);
    ZerosXor(POLY, 8 * n, Zeros(POLY, 8 * n, first), lane1);
    ZerosAdd(POLY, 8 * n, 8 * n, first);
  }

  /** r is the register that started as c and has taken in the memory from `start` to `next`. */
  ghost predicate Lane(mem: seq<u8>, start: nat, next: nat, c: nat, r: nat)
  {
    start <= next <= |mem| && r == CrcBytes(POLY, c, mem[start..next]) && r < 0x1_0000_0000
  }

  lemma LaneStart(mem: seq<u8>, start: nat, c: u32)
    requires start <= |mem|
    ensures Lane(mem, start, start, c, c)
  {
    assert mem[start..start] == [];
  }

  lemma LaneJoin(mem: seq<u8>, start: nat, mid: nat, next: nat, c: u32, d: nat, r: nat)
    requires Lane(mem, start, mid, c, d) && Lane(mem, mid, next, d, r)
    ensures Lane(mem, start, next, c, r)
  {
    CrcResume(POLY, c, mem, start, mid, next);
    hide CrcBytes;
  }

  /** One crc32q on the eight bytes at `next`. */
  method Word(mem: seq<u8>, next: nat, crc: u64, ghost start: nat, ghost c: u32) returns (r: u64)
    requires next + 8 <= |mem| && Lane(mem, start, next, c, crc)
    ensures Lane(mem, start, next + 8, c, r)
  {
    U64IsBytes(crc, mem[next..next + 8]);
    r := MmCrc32U64(crc, Load(mem[next..next + 8]));
    LaneJoin(mem, start, next, next + 8, c, crc, r);
  }

  /** One crc32b on the byte at `next`. */
  method OneByte(mem: seq<u8>, next: nat, crc: u64, ghost start: nat, ghost c: u32) returns (r: u64)
    requires next < |mem| && Lane(mem, start, next, c, crc)
    ensures Lane(mem, start, next + 1, c, r)
  {
    hide CrcBytes, MmCrc32U8;
    U8IsByte(crc % 0x1_0000_0000, mem[next]);
    assert mem[next..next + 1] == [mem[next]];
    r := MmCrc32U8(crc % 0x1_0000_0000, mem[next]);
    LaneJoin(mem, start, next, next + 1, c, crc, r);
  }

  /** The inner loop: three independent registers run over three adjacent blocks. */
  method Lanes(mem: seq<u8>, next0: nat, block: nat, crc: u64) returns (crc0: u64, crc1: u64, crc2: u64)
    requires block > 0 && block % 8 == 0 && next0 + 3 * block <= |mem|
    requires crc < 0x1_0000_0000
    ensures Lane(mem, next0, next0 + block, crc, crc0)
    ensures Lane(mem, next0 + block, next0 + 2 * block, 0, crc1)
    ensures Lane(mem, next0 + 2 * block, next0 + 3 * block, 0, crc2)
  {
    hide *;
    crc0, crc1, crc2 := crc, 0, 0;
    var next, end := next0, next0 + block;
    LaneStart(mem, next, crc);
    LaneStart(mem, next + block, 0);
    LaneStart(mem, next + 2 * block, 0);
    ghost var words := block / 8;
    while next < end
      invariant next0 <= next && end == next + 8 * words && words >= 0
      invariant Lane(mem, next0, next, crc, crc0)
      invariant Lane(mem, next0 + block, next + block, 0, crc1)
      invariant Lane(mem, next0 + 2 * block, next + 2 * block, 0, crc2)
    {
      crc0 := Word(mem, next, crc0, next0, crc);
      crc1 := Word(mem, next + block, crc1, next0 + block, 0);
      crc2 := Word(mem, next + 2 * block, crc2, next0 + 2 * block, 0);
      next, words := next + 8, words - 1;
    }
  }

  /**
   * The outer loop over blocks, which the source has twice, for LONG and for SHORT. `one` and `two` are the
   * tables for one and for two blocks of zeros.
   */
  method ThreeWay(mem: seq<u8>, next0: nat, len0: nat, crcIn: u64, block: nat,
                  one: array2<u32>, two: array2<u32>)
    returns (next: nat, len: nat, crc0: u64)
    requires block > 0 && block % 8 == 0 && next0 + len0 <= |mem|
    requires crcIn < 0x1_0000_0000
    requires IsZerosTable(one, 8 * block) && IsZerosTable(two, 16 * block)
    ensures next + len == next0 + len0 && len < 3 * block
    ensures Lane(mem, next0, next, crcIn, crc0)
  {
    hide CrcBytes, Xor, Zeros, IsZerosTable;
    next, len, crc0 := next0, len0, crcIn;
    var crc: u32 := 0;
    XorZero(crcIn);
    LaneStart(mem, next, crcIn);
    while len >= 3 * block
      invariant next0 <= next && next + len == next0 + len0
      invariant crc0 < 0x1_0000_0000
      invariant Xor(crc, crc0) == CrcBytes(POLY, crcIn, mem[next0..next])
    {
      ghost var crcOld, crc0Old := crc, crc0;
      var crc1, crc2;
      crc0, crc1, crc2 := Lanes(mem, next, block, crc0);
      crc, crc1 := JoinBlock(block, one, two, crc, crc0, crc1);
      crc0 := crc2;
      ghost var a, b := mem[next..next + block], mem[next + block..next + 2 * block];
      ghost var c := mem[next + 2 * block..next + 3 * block];
      JoinLanes(crcOld, crc0Old, a, b, c, block);
      assert mem[next..next + 3 * block] == a + b + c;
      CrcResume(POLY, crcIn, mem, next0, next, next + 3 * block);
      next, len := next + 3 * block, len - 3 * block;
    }
    XorWord(crc0, crc);
    XorComm(crc0, crc);
    crc0 := Xor(crc0, crc);
  }

  /** The update of the accumulator after a round of three blocks. */
  method JoinBlock(block: nat, one: array2<u32>, two: array2<u32>, crcIn: u32, crc0: u64, crc1In: u64)
    returns (crc: u32, crc1: u64)
    requires IsZerosTable(one, 8 * block) && IsZerosTable(two, 16 * block)
    requires crc0 < 0x1_0000_0000 && crc1In < 0x1_0000_0000
    ensures crc == Xor(Zeros(POLY, 16 * block, Xor(Zeros(POLY, 8 * block, crcIn), crc0)),
                       Zeros(POLY, 8 * block, crc1In))
  {
    hide Xor, Zeros, Shift, Entry;
    ShiftIsZeros(one, 8 * block, crcIn);
    XorWord(Shift(one, crcIn), crc0);
    crc := Xor(Shift(one, crcIn), crc0);
    ShiftIsZeros(one, 8 * block, crc1In % 0x1_0000_0000);
    crc1 := Shift(one, crc1In % 0x1_0000_0000);
    ShiftIsZeros(two, 16 * block, crc);
    XorWord(Shift(two, crc), crc1);
    crc := Xor(Shift(two, crc), crc1);
  }

  // ---------------------------------------------------------------- the checksum

  class Hardware {
    const long: array2<u32>
    const long2: array2<u32>
    const short: array2<u32>
    const short2: array2<u32>

    ghost predicate Ready()
      reads long, long2, short, short2
    {
      && IsZerosTable(long, 8 * LONG) && IsZerosTable(long2, 16 * LONG)
      && IsZerosTable(short, 8 * SHORT) && IsZerosTable(short2, 16 * SHORT)
    }

    /** crc32c_init_hw. */
    constructor ()
      ensures Ready()
    {
      hide IsZerosTable;
      long, long2 := new u32[4, 256], new u32[4, 256];
      short, short2 := new u32[4, 256], new u32[4, 256];
      new;
      BlockLengths();
      BlockTables(long, long2, LONG);
      BlockTables(short, short2, SHORT);
    }

    /** sse42_crc32c: for every seed, length and alignment, the bit-serial CRC-32C. */
    method Crc32c(crcIn: u32, mem: seq<u8>, buf: nat, length: nat) returns (crc: u32)
      requires Ready()
      requires buf + length <= |mem|
      ensures crc == CrcBytes(POLY, crcIn, mem[buf..buf + length])
    {
      hide *;
      var next: nat, len: nat, crc0: u64 := buf, length, crcIn;
      LaneStart(mem, buf, crcIn);
      while len > 0 && next % 8 != 0
        invariant buf <= next && next + len == buf + length
        invariant Lane(mem, buf, next, crcIn, crc0)
      {
        crc0 := OneByte(mem, next, crc0, buf, crcIn);
        next, len := next + 1, len - 1;
      }
      next, len, crc0 := Blocks(mem, next, len, crc0, buf, crcIn);
      var end := next + (len - len % 8);
      ghost var words := len / 8;
      while next < end
        invariant buf <= next && end == next + 8 * words && words >= 0
        invariant Lane(mem, buf, next, crcIn, crc0)
      {
        crc0 := Word(mem, next, crc0, buf, crcIn);
        next, words := next + 8, words - 1;
      }
      len := len % 8;
      while len > 0
        invariant buf <= next && next + len == buf + length
        invariant Lane(mem, buf, next, crcIn, crc0)
      {
        crc0 := OneByte(mem, next, crc0, buf, crcIn);
        next, len := next + 1, len - 1;
      }
      crc := Result(mem, buf, next, crcIn, crc0);
    }

    /** The three-way loops over LONG and then over SHORT blocks. */
    method Blocks(mem: seq<u8>, next0: nat, len0: nat, crc: u64, ghost start: nat, ghost c: u32)
      returns (next: nat, len: nat, crc0: u64)
      requires Ready()
      requires next0 + len0 <= |mem| && Lane(mem, start, next0, c, crc)
      ensures next0 <= next && next + len == next0 + len0
      ensures Lane(mem, start, next, c, crc0)
    {
      hide IsZerosTable, CrcBytes;
      next, len, crc0 := ThreeWay(mem, next0, len0, crc, LONG, long, long2);
      LaneJoin(mem, start, next0, next, c, crc, crc0);
      ghost var mid, d := next, crc0;
      next, len, crc0 := ThreeWay(mem, next, len, crc0, SHORT, short, short2);
      LaneJoin(mem, start, mid, next, c, d, crc0);
    }
  }

  method Result(mem: seq<u8>, start: nat, next: nat, c: u32, crc0: u64) returns (crc: u32)
    requires Lane(mem, start, next, c, crc0)
    ensures start <= next <= |mem| && crc == CrcBytes(POLY, c, mem[start..next])
  {
    crc := crc0 % 0x1_0000_0000;
  }
}
