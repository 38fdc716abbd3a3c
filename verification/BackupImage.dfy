/**
  Byte and page arithmetic for sqlcipher/src/backup.c: page sizes, the pending-byte page, and writes
  to a file image.  Page numbers start at 1; page q of size z occupies the offsets from Off(z, q).
 */
module BackupImage {
  import opened Arith
  import opened Common

  // PENDING_BYTE is a variable of the library, 0x40000000 by default; it is the parameter `pb` below.

  /**
    What the proofs use of the two page sizes: one is a multiple of the other, and both divide the
    offset of the pending byte.  PowersOfTwoFit shows it for all sizes SQLite allows.
   */
  predicate PageSizes(pb: nat, s: nat, d: nat) {
    && pb > 0 && s >= 512 && d >= 512
    && (Multiple(s, d) || Multiple(d, s))
    && Multiple(pb, s) && Multiple(pb, d)
  }

  function Pow2(k: nat): (p: nat)
    ensures p > 0
  {
    if k == 0 then 1 else 2 * Pow2(k - 1)
  }

  lemma {:induction false} Pow2Multiple(j: nat, k: nat)
    requires j <= k
    ensures Pow2(j) <= Pow2(k) && Multiple(Pow2(k), Pow2(j))
  {
    if j < k {
      Pow2Multiple(j, k - 1);
      MultiplePlus(Pow2(k - 1), Pow2(k - 1), Pow2(j));
    }
  }

  lemma Pow2Values()
    ensures Pow2(9) == 512 && Pow2(30) == 0x4000_0000
  {
    assert Pow2(10) == 0x400 && Pow2(20) == 0x10_0000;
  }

  /** Any two page sizes from 512 = 2^9 to 65536 = 2^16. */
  lemma PowersOfTwoFit(j: nat, k: nat)
    requires 9 <= j <= 16 && 9 <= k <= 16
    ensures PageSizes(Pow2(30), Pow2(j), Pow2(k)) && Pow2(30) == 0x4000_0000
  {
    Pow2Values();
    Pow2Multiple(9, j);
    Pow2Multiple(9, k);
    if j <= k { Pow2Multiple(j, k); } else { Pow2Multiple(k, j); }
    Pow2Multiple(j, 30);
    Pow2Multiple(k, 30);
  }

  /** The offset of page q, as a sum: (q - 1) * z. */
  function Off(z: nat, q: nat): nat
    requires q > 0
  {
    if q == 1 then 0 else Off(z, q - 1) + z
  }

  /** PENDING_BYTE_PAGE */
  function PendingPage(pb: nat, z: nat): (q: nat)
    requires z > 0
    ensures q > 0
  {
    Quot(z, pb) + 1
  }

  predicate InPending(pb: nat, z: nat, o: nat) {
    pb <= o < pb + z
  }

  // ---------------------------------------------------------------------------------------------
  // Pages and offsets

  lemma {:induction false} OffProduct(z: nat, q: nat)
    requires q > 0
    ensures Off(z, q) == (q - 1) * z
  {
    if q > 1 {
      OffProduct(z, q - 1);
      assert (q - 1) * z == (q - 2) * z + z;
    }
  }

  /** The size of a file of n pages. */
  function FileSize(z: nat, n: nat): (size: nat)
    ensures size == Off(z, n + 1)
  {
    OffProduct(z, n + 1);
    z * n
  }

  lemma {:induction false} OffOrder(z: nat, q: nat, r: nat)
    requires 0 < q < r
    ensures Off(z, q) + z <= Off(z, r)
  {
    if r > q + 1 { OffOrder(z, q, r - 1); }
  }

  /** A page starts at 0 or after the first page. */
  lemma FirstOffset(z: nat, q: nat)
    requires q > 0
    ensures Off(z, q) == 0 || Off(z, q) >= z
  {
    if q > 1 { OffOrder(z, 1, q); }
  }

  lemma OffIncreases(z: nat, q: nat)
    requires q > 0
    ensures forall r: nat :: r > q ==> Off(z, q) + z <= Off(z, r)
  {
    forall r: nat | r > q ensures Off(z, q) + z <= Off(z, r) { OffOrder(z, q, r); }
  }

  lemma {:induction false} OffMultiple(z: nat, q: nat)
    requires q > 0 && z > 0
    ensures Multiple(Off(z, q), z)
  {
    if q > 1 { OffMultiple(z, q - 1); }
  }

  /** Offset o is in page Quot + 1, at place Rem. */
  lemma {:induction false} OffLocates(z: nat, o: nat)
    requires z > 0
    ensures Off(z, Quot(z, o) + 1) + Rem(z, o) == o
  {
    if o >= z { OffLocates(z, o - z); }
  }

  /** And in no other page. */
  lemma OnlyPage(z: nat, o: nat, q: nat)
    requires z > 0 && q > 0
    ensures Quot(z, o) + 1 == q <==> Off(z, q) <= o < Off(z, q) + z
    ensures Off(z, q) <= o < Off(z, q) + z ==> Rem(z, o) == o - Off(z, q)
  {
    OffLocates(z, o);
    if q < Quot(z, o) + 1 { OffOrder(z, q, Quot(z, o) + 1); }
    if q > Quot(z, o) + 1 { OffOrder(z, Quot(z, o) + 1, q); }
  }

  lemma PendingOffset(pb: nat, z: nat)
    requires z > 0 && Multiple(pb, z)
    ensures Off(z, PendingPage(pb, z)) == pb
  {
    OffLocates(z, pb);
    RemZero(pb, z);
  }

  lemma PendingIsPage(pb: nat, z: nat, o: nat)
    requires z > 0 && Multiple(pb, z)
    ensures InPending(pb, z, o) <==> Quot(z, o) + 1 == PendingPage(pb, z)
  {
    PendingOffset(pb, z);
    OnlyPage(z, o, PendingPage(pb, z));
  }

  // ---------------------------------------------------------------------------------------------
  // File images

  /** The byte at offset o; beyond the end of the file everything reads as zero. */
  function At(f: seq<Byte>, o: nat): Byte {
    if o < |f| then f[o] else 0
  }

  function Min(a: nat, b: nat): nat {
    if a < b then a else b
  }

  function Max(a: nat, b: nat): nat {
    if a < b then b else a
  }

  /** Grow the file to at least n bytes. */
  function Pad(f: seq<Byte>, n: nat): (g: seq<Byte>)
    ensures |g| == Max(|f|, n)
    ensures forall o: nat :: At(g, o) == At(f, o)
  {
    seq(Max(|f|, n), o requires 0 <= o => At(f, o))
  }

  function WriteAt(f: seq<Byte>, off: nat, data: seq<Byte>): (g: seq<Byte>)
    ensures |g| == Max(|f|, off + |data|)
    ensures forall o: nat :: off <= o < off + |data| ==> At(g, o) == data[o - off]
    ensures forall o: nat :: !(off <= o < off + |data|) ==> At(g, o) == At(f, o)
  {
    seq(Max(|f|, off + |data|), o requires 0 <= o => if off <= o < off + |data| then data[o - off] else At(f, o))
  }

  /** sqlite3Put4byte */
  function Put4(v: nat): (d: seq<Byte>)
    ensures |d| == 4
  {
    [v / 0x100_0000 % 256, v / 0x1_0000 % 256, v / 0x100 % 256, v % 256]
  }
}
