/** Little-endian integers, hashes and the cursor that reads them back (AppendUnsigned and
    ByteReader in src/forest.cpp, AppendLE and ByteReader in src/p2p.cpp). */
module Bytes {
  import opened Common

  type Byte = x: int | 0 <= x < 256

  /** What a read leaves: the value and the bytes after it. */
  datatype Got<T> = Got(value: T, rest: seq<Byte>)

  /** 256 to the power `width`. */
  function Span(width: nat): (r: nat)
    ensures r >= 1
  { if width == 0 then 1 else 256 * Span(width - 1) }

  function Le(n: nat, width: nat): (r: seq<Byte>)
    ensures |r| == width
  {
    if width == 0 then [] else [n % 256] + Le(n / 256, width - 1)
  }

  function FromLe(bytes: seq<Byte>): nat {
    if bytes == [] then 0 else bytes[0] + 256 * FromLe(bytes[1..])
  }

  lemma {:induction false} LeRoundTrip(n: nat, width: nat)
    requires n < Span(width)
    ensures FromLe(Le(n, width)) == n
    decreases width
  {
    if width > 0 {
      LeRoundTrip(n / 256, width - 1);
      assert Le(n, width)[1..] == Le(n / 256, width - 1);
    }
  }

  function ReadLe(bytes: seq<Byte>, width: nat): Option<Got<nat>> {
    if |bytes| < width then None else Some(Got(FromLe(bytes[..width]), bytes[width..]))
  }

  lemma ReadLeAppended(n: nat, width: nat, rest: seq<Byte>)
    requires n < Span(width)
    ensures ReadLe(Le(n, width) + rest, width) == Some(Got(n, rest))
  {
    LeRoundTrip(n, width);
    assert (Le(n, width) + rest)[..width] == Le(n, width) && (Le(n, width) + rest)[width..] == rest;
  }

  lemma Spans()
    ensures Span(1) == 256 && Span(2) == 65536 && Span(4) == 4294967296 && Span(8) == 18446744073709551616
  {
    assert Span(2) == 256 * Span(1) && Span(3) == 256 * Span(2) && Span(4) == 256 * Span(3);
    assert Span(5) == 256 * Span(4) && Span(6) == 256 * Span(5) && Span(7) == 256 * Span(6) && Span(8) == 256 * Span(7);
  }

  // ---- hashes are 32 bytes --------------------------------------------------------------

  const HASH_SIZE := 32

  /** How a hash is laid out, and read back. */
  datatype HashForm = HashForm(bytes: Hash -> seq<Byte>, hash: seq<Byte> -> Hash)

  ghost predicate Faithful(form: HashForm) {
    forall h :: |form.bytes(h)| == HASH_SIZE && form.hash(form.bytes(h)) == h
  }

  function ReadHash(form: HashForm, bytes: seq<Byte>): Option<Got<Hash>> {
    if |bytes| < HASH_SIZE then None else Some(Got(form.hash(bytes[..HASH_SIZE]), bytes[HASH_SIZE..]))
  }

  lemma ReadHashAppended(form: HashForm, h: Hash, rest: seq<Byte>)
    requires Faithful(form)
    ensures ReadHash(form, form.bytes(h) + rest) == Some(Got(h, rest))
  {
    assert (form.bytes(h) + rest)[..HASH_SIZE] == form.bytes(h) && (form.bytes(h) + rest)[HASH_SIZE..] == rest;
  }
}
