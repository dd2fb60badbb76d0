/**
 Persisting the index of a domain store (cesium/internal/domain/index_persist.go): pointers
 are written as fixed 26-byte little-endian records, and only a suffix of them is rewritten.
 */
module IndexPersist {
  import opened Common
  import opened Telem
  import opened DomainIndex

  const POINTER_BYTE_SIZE := 26

  // ----- Little-endian integers -----

  /** The `n` low bytes of `v`, least significant first. */
  function PutUint(v: nat, n: nat): (b: seq<Byte>)
    ensures |b| == n
  {
    if n == 0 then [] else [v % 256] + PutUint(v / 256, n - 1)
  }

  function Uint(b: seq<Byte>): nat {
    if b == [] then 0 else b[0] + 256 * Uint(b[1..])
  }

  /** 256 to the power `n`. */
  function Pow256(n: nat): (p: nat)
    ensures p > 0
  {
    if n == 0 then 1 else 256 * Pow256(n - 1)
  }

  lemma {:induction false} UintRoundTrip(v: nat, n: nat)
    requires v < Pow256(n)
    ensures Uint(PutUint(v, n)) == v
  {
    if n > 0 {
      UintRoundTrip(v / 256, n - 1);
      assert PutUint(v, n)[1..] == PutUint(v / 256, n - 1);
    }
  }

  lemma {:induction false} UintBound(b: seq<Byte>)
    ensures Uint(b) < Pow256(|b|)
  {
    if b != [] {
      UintBound(b[1..]);
    }
  }

  lemma Powers()
    ensures Pow256(2) == 0x1_0000 && Pow256(4) == 0x1_0000_0000 && Pow256(8) == 0x1_0000_0000_0000_0000
  {
  }

  /** The unsigned reading of a stamp's 64 bits. */
  function Unsigned(t: Stamp): nat {
    if t < 0 then t + 0x1_0000_0000_0000_0000 else t
  }

  // ----- Records -----

  function EncodePointer(p: Pointer): (b: seq<Byte>)
    ensures |b| == POINTER_BYTE_SIZE
  {
    PutUint(Unsigned(p.tr.start), 8) + PutUint(Unsigned(p.tr.end), 8)
    + PutUint(p.fileKey, 2) + PutUint(p.offset, 4) + PutUint(p.length, 4)
  }

  function DecodePointer(b: seq<Byte>): Pointer
    requires |b| == POINTER_BYTE_SIZE
  {
    UintBound(b[0..8]); UintBound(b[8..16]); UintBound(b[16..18]); UintBound(b[18..22]); UintBound(b[22..26]);
    Powers();
    Pointer(TimeRange(Wrap64(Uint(b[0..8])), Wrap64(Uint(b[8..16]))), Uint(b[16..18]), Uint(b[18..22]), Uint(b[22..26]))
  }

  /** Fields survive encoding, negative stamps included. */
  lemma PointerRoundTrip(p: Pointer)
    ensures DecodePointer(EncodePointer(p)) == p
  {
    var b := EncodePointer(p);
    Powers();
    assert b[0..8] == PutUint(Unsigned(p.tr.start), 8);
    assert b[8..16] == PutUint(Unsigned(p.tr.end), 8);
    assert b[16..18] == PutUint(p.fileKey, 2);
    assert b[18..22] == PutUint(p.offset, 4);
    assert b[22..26] == PutUint(p.length, 4);
    UintRoundTrip(Unsigned(p.tr.start), 8);
    UintRoundTrip(Unsigned(p.tr.end), 8);
    UintRoundTrip(p.fileKey, 2);
    UintRoundTrip(p.offset, 4);
    UintRoundTrip(p.length, 4);
  }

  /** The `k`-th byte of a number, in two's complement when it is negative. */
  function Digit(v: int, k: nat): Byte {
    v / Pow256(k) % 256
  }

  lemma QuotientOfQuotient(v: nat, d: nat)
    requires d > 0
    ensures v / 256 / d == v / (256 * d)
  {
    var q := v / (256 * d);
    assert v == q * (256 * d) + v % (256 * d);
    assert q * (256 * d) == 256 * (q * d);
    Divides(v / 256, q, d);
  }

  lemma {:induction false} PutUintAt(v: nat, n: nat, k: nat)
    requires k < n
    ensures PutUint(v, n)[k] == Digit(v, k)
  {
    if k > 0 {
      PutUintAt(v / 256, n - 1, k - 1);
      QuotientOfQuotient(v, Pow256(k - 1));
    }
  }

  lemma {:induction false} PowersMultiply(a: nat, b: nat)
    ensures Pow256(a + b) == Pow256(a) * Pow256(b)
  {
    if a > 0 {
      PowersMultiply(a - 1, b);
      assert 256 * (Pow256(a - 1) * Pow256(b)) == (256 * Pow256(a - 1)) * Pow256(b);
    }
  }

  /** Adding a multiple of 256 times `d` does not show in the digit at `d`. */
  lemma DigitShift(t: int, d: nat, m: nat)
    requires d > 0
    ensures (t + d * (256 * m)) / d % 256 == t / d % 256
  {
    var q := t / d;
    assert t == q * d + t % d;
    assert (q + 256 * m) * d == q * d + d * (256 * m);
    Divides(t + d * (256 * m), q + 256 * m, d);
  }

  lemma UnsignedDigit(t: Stamp, k: nat)
    requires k < 8
    ensures Digit(Unsigned(t), k) == Digit(t, k)
  {
    Powers();
    PowersMultiply(k, 8 - k);
    DigitShift(t, Pow256(k), Pow256(7 - k));
  }

  /** The layout of a record: the start and the end in eight bytes each, then the file key in two and the offset and length in four. */
  lemma RecordLayout(p: Pointer, j: nat)
    requires j < POINTER_BYTE_SIZE
    ensures EncodePointer(p)[j] ==
            if j < 8 then Digit(p.tr.start, j)
            else if j < 16 then Digit(p.tr.end, j - 8)
            else if j < 18 then Digit(p.fileKey, j - 16)
            else if j < 22 then Digit(p.offset, j - 18)
            else Digit(p.length, j - 22)
  {
    if j < 8 {
      PutUintAt(Unsigned(p.tr.start), 8, j);
      UnsignedDigit(p.tr.start, j);
    } else if j < 16 {
      PutUintAt(Unsigned(p.tr.end), 8, j - 8);
      UnsignedDigit(p.tr.end, j - 8);
    } else if j < 18 {
      PutUintAt(p.fileKey, 2, j - 16);
    } else if j < 22 {
      PutUintAt(p.offset, 4, j - 18);
    } else {
      PutUintAt(p.length, 4, j - 22);
    }
  }

  // ----- Whole files -----

  function EncodeAll(ps: seq<Pointer>): (b: seq<Byte>)
    ensures |b| == POINTER_BYTE_SIZE * |ps|
  {
    if ps == [] then [] else EncodeAll(ps[..|ps| - 1]) + EncodePointer(ps[|ps| - 1])
  }

  /** The `i`-th record of a file; bytes after the last whole record are ignored. */
  function Record(b: seq<Byte>, i: nat): (r: seq<Byte>)
    requires POINTER_BYTE_SIZE * (i + 1) <= |b|
    ensures |r| == POINTER_BYTE_SIZE
  {
    b[POINTER_BYTE_SIZE * i..POINTER_BYTE_SIZE * (i + 1)]
  }

  function DecodeAll(b: seq<Byte>): seq<Pointer> {
    seq(|b| / POINTER_BYTE_SIZE, i requires 0 <= i < |b| / POINTER_BYTE_SIZE => DecodePointer(Record(b, i)))
  }

  lemma {:induction false} EncodeRecord(ps: seq<Pointer>, i: nat)
    requires i < |ps|
    ensures Record(EncodeAll(ps), i) == EncodePointer(ps[i])
  {
    var front := ps[..|ps| - 1];
    if i < |front| {
      EncodeRecord(front, i);
      assert Record(EncodeAll(ps), i) == Record(EncodeAll(front), i);
    }
  }

  /** Loading a fully written index gives back the index, for every list of pointers. */
  lemma IndexRoundTrip(ps: seq<Pointer>)
    ensures DecodeAll(EncodeAll(ps)) == ps
  {
    forall i | 0 <= i < |ps|
      ensures DecodeAll(EncodeAll(ps))[i] == ps[i]
    {
      EncodeRecord(ps, i);
      PointerRoundTrip(ps[i]);
    }
  }

  /** Overwrites the bytes from `base` on. */
  method PutAt(b: array<Byte>, base: nat, v: seq<Byte>)
    requires base + |v| <= b.Length
    modifies b
    ensures b[..base + |v|] == old(b[..base]) + v
  {
    forall k | 0 <= k < |v| {
      b[base + k] := v[k];
    }
  }

  /** Writes one record, field by field. */
  method PutPointer(b: array<Byte>, base: nat, ptr: Pointer)
    requires base + POINTER_BYTE_SIZE <= b.Length
    modifies b
    ensures b[..base + POINTER_BYTE_SIZE] == old(b[..base]) + EncodePointer(ptr)
  {
    PutAt(b, base, PutUint(Unsigned(ptr.tr.start), 8));
    PutAt(b, base + 8, PutUint(Unsigned(ptr.tr.end), 8));
    PutAt(b, base + 16, PutUint(ptr.fileKey, 2));
    PutAt(b, base + 18, PutUint(ptr.offset, 4));
    PutAt(b, base + 22, PutUint(ptr.length, 4));
  }

  /** Fills a buffer with the records of the pointers from `start` on. */
  method Encode(start: nat, ps: seq<Pointer>) returns (b: array<Byte>)
    requires start <= |ps|
    ensures fresh(b) && b[..] == EncodeAll(ps[start..])
  {
    b := new Byte[(|ps| - start) * POINTER_BYTE_SIZE];
    for i := start to |ps|
      invariant b[..(i - start) * POINTER_BYTE_SIZE] == EncodeAll(ps[start..i])
    {
      var ptr := ps[i];
      var base := (i - start) * POINTER_BYTE_SIZE;
      PutPointer(b, base, ptr);
      assert ps[start..i + 1][..i - start] == ps[start..i];
    }
    assert ps[start..|ps|] == ps[start..];
    assert b[..b.Length] == b[..];
  }

  /** Reads the records of a file. */
  method Decode(b: seq<Byte>) returns (ps: seq<Pointer>)
    ensures ps == DecodeAll(b)
  {
    ps := [];
    for i := 0 to |b| / POINTER_BYTE_SIZE
      invariant ps == DecodeAll(b)[..i]
    {
      ps := ps + [DecodePointer(b[i * POINTER_BYTE_SIZE..(i + 1) * POINTER_BYTE_SIZE])];
    }
  }

  // ----- Partial rewrites -----

  function Zeros(n: nat): seq<Byte> {
    seq(n, _ => 0)
  }

  /** The file cut, or extended with zeros, to `n` bytes. */
  function Truncate(f: seq<Byte>, n: nat): (r: seq<Byte>)
    ensures |r| == n
  {
    if n <= |f| then f[..n] else f + Zeros(n - |f|)
  }

  function WriteAt(f: seq<Byte>, at: nat, b: seq<Byte>): (r: seq<Byte>)
    requires at + |b| <= |f|
    ensures |r| == |f|
  {
    f[..at] + b + f[at + |b|..]
  }

  /** The function returned by `prepare(start)`: cut the file to the new index, then rewrite its records from `start` on. */
  function Persist(f: seq<Byte>, ps: seq<Pointer>, start: nat): (r: seq<Byte>)
    requires start <= |ps|
    ensures |r| == POINTER_BYTE_SIZE * |ps|
  {
    WriteAt(Truncate(f, POINTER_BYTE_SIZE * |ps|), POINTER_BYTE_SIZE * start, EncodeAll(ps[start..]))
  }

  /** Records before `start` are those already in the file, zeros past its end; the others are new. */
  lemma PersistRecord(f: seq<Byte>, ps: seq<Pointer>, start: nat, i: nat)
    requires start <= |ps| && i < |ps|
    ensures Record(Persist(f, ps, start), i)
            == if i < start then Record(Truncate(f, POINTER_BYTE_SIZE * start), i) else EncodePointer(ps[i])
  {
    var g := Truncate(f, POINTER_BYTE_SIZE * |ps|);
    var b := EncodeAll(ps[start..]);
    var at := POINTER_BYTE_SIZE * start;
    if i < start {
      assert Record(Persist(f, ps, start), i) == Record(g, i);
      assert Record(g, i) == Record(Truncate(f, at), i);
    } else {
      EncodeRecord(ps[start..], i - start);
      assert Record(Persist(f, ps, start), i) == Record(b, i - start);
    }
  }

  /**
   A partial rewrite leaves a file that loads as the index exactly when the untouched part of the file already loads
   as the first `start` pointers.
   */
  lemma PersistExact(f: seq<Byte>, ps: seq<Pointer>, start: nat)
    requires start <= |ps|
    ensures DecodeAll(Persist(f, ps, start)) == ps <==> DecodeAll(Truncate(f, POINTER_BYTE_SIZE * start)) == ps[..start]
  {
    var r, kept := Persist(f, ps, start), Truncate(f, POINTER_BYTE_SIZE * start);
    assert |DecodeAll(r)| == |ps| && |DecodeAll(kept)| == start;
    forall i | 0 <= i < |ps|
      ensures DecodeAll(r)[i] == if i < start then DecodeAll(kept)[i] else ps[i]
    {
      PersistRecord(f, ps, start, i);
      PointerRoundTrip(ps[i]);
    }
    if DecodeAll(r) == ps {
      assert forall i | 0 <= i < start :: DecodeAll(kept)[i] == ps[i];
    }
  }

  lemma {:induction false} EncodePrefix(ps: seq<Pointer>, n: nat)
    requires n <= |ps|
    ensures EncodeAll(ps)[..POINTER_BYTE_SIZE * n] == EncodeAll(ps[..n])
  {
    if n == |ps| {
      assert ps[..n] == ps;
    } else {
      var front := ps[..|ps| - 1];
      EncodePrefix(front, n);
      assert front[..n] == ps[..n];
    }
  }

  /** A file written for an old index, rewritten from the first changed pointer, loads as the new index, longer or shorter. */
  lemma DurableIndex(prior: seq<Pointer>, ps: seq<Pointer>, start: nat)
    requires start <= |prior| && start <= |ps| && prior[..start] == ps[..start]
    ensures DecodeAll(Persist(EncodeAll(prior), ps, start)) == ps
  {
    EncodePrefix(prior, start);
    IndexRoundTrip(ps[..start]);
    PersistExact(EncodeAll(prior), ps, start);
  }

  /**
   When a pointer before `start` has changed without being written, rewriting from `start` on leaves a file that does
   not load as the index.
   */
  lemma StaleIndex(prior: seq<Pointer>, ps: seq<Pointer>, start: nat, i: nat)
    requires i < start <= |prior| && start <= |ps| && prior[i] != ps[i]
    ensures DecodeAll(Persist(EncodeAll(prior), ps, start)) != ps
  {
    EncodePrefix(prior, start);
    IndexRoundTrip(prior[..start]);
    PersistExact(EncodeAll(prior), ps, start);
    assert prior[..start][i] == prior[i] && ps[..start][i] == ps[i];
  }
}
