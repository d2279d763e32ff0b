/** Synthetic row identifiers and their packing into an item pointer (src/fdw/modify/rowid.rs). */
module RowIds {
  import opened Numbers

  const CHUNK_ROWS: nat := 65_536

  /**
   Quotient and remainder by 65,536, which serve both the chunk arithmetic and the 16-bit halves of
   a block number. They are written by repeated subtraction, which keeps division out of the
   verifier's sight; `DivMod` gives their closed form.
   */
  function Quot(n: nat): nat {
    if n < CHUNK_ROWS then 0 else 1 + Quot(n - CHUNK_ROWS)
  }

  function Rem(n: nat): nat {
    if n < CHUNK_ROWS then n else Rem(n - CHUNK_ROWS)
  }

  lemma {:induction false} QuotRem(n: nat)
    ensures n == Quot(n) * CHUNK_ROWS + Rem(n) && Rem(n) < CHUNK_ROWS
  {
    if n >= CHUNK_ROWS {
      QuotRem(n - CHUNK_ROWS);
    }
  }

  lemma {:induction false} DivMod(n: nat)
    ensures Quot(n) == n / CHUNK_ROWS && Rem(n) == n % CHUNK_ROWS
  {
    if n >= CHUNK_ROWS {
      DivMod(n - CHUNK_ROWS);
    }
  }

  lemma {:induction false} QuotRemUnique(q: nat, r: nat)
    requires r < CHUNK_ROWS
    ensures Quot(q * CHUNK_ROWS + r) == q && Rem(q * CHUNK_ROWS + r) == r
  {
    if q > 0 {
      QuotRemUnique(q - 1, r);
      assert q * CHUNK_ROWS + r - CHUNK_ROWS == (q - 1) * CHUNK_ROWS + r;
    }
  }

  /** The cast `n as u32`. */
  function Wrap32(n: nat): nat {
    if n < U32_SIZE then n else Wrap32(n - U32_SIZE)
  }

  lemma {:induction false} Wrap32Range(n: nat)
    ensures Wrap32(n) < U32_SIZE && Wrap32(n) <= n
    ensures n < U32_SIZE ==> Wrap32(n) == n
  {
    if n >= U32_SIZE {
      Wrap32Range(n - U32_SIZE);
    }
  }

  type u32 = x: nat | x < U32_SIZE
  type u16 = x: nat | x < 0x1_0000

  datatype RowId = RowId(blobId: u32, offset: u16)

  /** PostgreSQL's item pointer: a block number in two halves, and an offset number. */
  datatype ItemPointer = ItemPointer(blockHi: u16, blockLo: u16, posid: u16)

  /** The identifier of row `abs` of the blob whose first chunk is `base`; the addition saturates. */
  function FromAbsolute(base: u32, abs: nat): RowId {
    var chunk := Wrap32(Quot(abs));
    Wrap32Range(Quot(abs));
    QuotRem(abs);
    RowId(if base + chunk < U32_SIZE then base + chunk else U32_SIZE - 1, Rem(abs))
  }

  function ToCtid(r: RowId): ItemPointer {
    QuotRem(r.blobId);
    ItemPointer(Quot(r.blobId), Rem(r.blobId), r.offset)
  }

  function FromCtid(p: ItemPointer): RowId {
    RowId(p.blockHi * CHUNK_ROWS + p.blockLo, p.posid)
  }

  /** The absolute row of an identifier, given its blob's first chunk. */
  function AbsoluteRow(r: RowId, base: u32): int {
    (r.blobId - base) * CHUNK_ROWS + r.offset
  }

  /** The packing is a bijection, and the two halves make up the block number, the high one first. */
  lemma CtidRoundTrip(r: RowId, p: ItemPointer)
    ensures FromCtid(ToCtid(r)) == r
    ensures ToCtid(r).blockHi * 65536 + ToCtid(r).blockLo == r.blobId && ToCtid(r).posid == r.offset
    ensures ToCtid(FromCtid(p)) == p
  {
    QuotRem(r.blobId);
    QuotRemUnique(p.blockHi, p.blockLo);
  }

  lemma {:induction false} Wrap32Mod(n: nat)
    ensures Wrap32(n) == n % 0x1_0000_0000
  {
    if n >= U32_SIZE {
      Wrap32Mod(n - U32_SIZE);
    }
  }

  /** The chunk is cut to 32 bits, the sum saturates, and the offset is the rest. */
  lemma FromAbsoluteMeans(base: u32, abs: nat)
    ensures var r, sum := FromAbsolute(base, abs), base + abs / 65536 % 0x1_0000_0000;
            r.offset == abs % 65536 && r.blobId == if sum <= 0xFFFF_FFFF then sum else 0xFFFF_FFFF
  {
    DivMod(abs);
    Wrap32Mod(Quot(abs));
  }

  /** An identifier gives its row back exactly when the chunk number did not overflow 32 bits. */
  lemma AbsoluteRoundTrip(base: u32, abs: nat)
    ensures AbsoluteRow(FromAbsolute(base, abs), base) == abs <==> base + abs / 65536 < U32_SIZE
  {
    QuotRem(abs);
    DivMod(abs);
    var k := Quot(abs);
    Wrap32Range(k);
    var got := FromAbsolute(base, abs).blobId - base;
    if base + k >= U32_SIZE {
      assert got < k;
    }
  }
}
