/** The bounds-checked cursor every parser is built from, and what each read means for the bytes that remain. */
module Reader {
  import opened Bytes
  import opened Crypto
  import opened Wrappers

  const MAX_ARGON2_MEM_KIB: nat := 0x10_0000
  const MAX_ARGON2_TIME: nat := 64
  const MAX_ARGON2_PARALLELISM: nat := 64

  type Parse<T> = Result<(T, bytes)>

  function Split(s: bytes, n: nat): Parse<bytes> {
    if n <= |s| then Ok((s[..n], s[n..])) else Err(Format(Truncated))
  }

  function ReadByte(s: bytes): Parse<byte> {
    var (b, rest) :- Split(s, 1);
    Ok((b[0], rest))
  }

  function ReadU16(s: bytes): Parse<u16> {
    var (b, rest) :- Split(s, 2);
    LEOfFromLE(b); PowerValues();
    Ok((FromLE(b), rest))
  }

  function ReadU32(s: bytes): Parse<u32> {
    var (b, rest) :- Split(s, 4);
    LEOfFromLE(b); PowerValues();
    Ok((FromLE(b), rest))
  }

  function ReadU128(s: bytes): Parse<u128> {
    var (b, rest) :- Split(s, 16);
    LEOfFromLE(b); PowerValues();
    Ok((FromLE(b), rest))
  }

  function ReadBlob(s: bytes): Parse<bytes> {
    var (n, rest) :- ReadU32(s);
    Split(rest, n)
  }

  predicate Argon2InRange(p: Argon2Params) {
    p.memKib <= MAX_ARGON2_MEM_KIB && p.time <= MAX_ARGON2_TIME && p.parallelism <= MAX_ARGON2_PARALLELISM
  }

  function ReadArgon2(s: bytes): Parse<Argon2Params> {
    var (mem, r1) :- ReadU32(s);
    var (time, r2) :- ReadU32(r1);
    var (par, r3) :- ReadU32(r2);
    if mem > MAX_ARGON2_MEM_KIB || time > MAX_ARGON2_TIME || par > MAX_ARGON2_PARALLELISM
    then Err(Format(Argon2Range))
    else
      var (salt, r4) :- Split(r3, 16);
      Ok((Argon2Params(mem, time, par, salt), r4))
  }

  // Printers take the bytes that follow, so that reading one field back leaves exactly those.

  function PutBlob(v: bytes, rest: bytes): bytes {
    LE(|v|, 4) + (v + rest)
  }

  function PutArgon2(p: Argon2Params, rest: bytes): bytes {
    LE(p.memKib, 4) + (LE(p.time, 4) + (LE(p.parallelism, 4) + (p.salt + rest)))
  }

  lemma ReadBack16(n: u16, rest: bytes)
    ensures ReadU16(LE(n, 2) + rest) == Ok((n, rest))
  {
    hide LE, FromLE, Pow256;
    FromLEOfLE(n, 2); PowerValues();
  }

  lemma ReadBack32(n: nat, rest: bytes)
    ensures ReadU32(LE(n, 4) + rest) == Ok((n % U32_LIMIT, rest))
  {
    hide LE, FromLE, Pow256;
    FromLEOfLE(n, 4); PowerValues();
  }

  lemma ReadBack128(n: u128, rest: bytes)
    ensures ReadU128(LE(n, 16) + rest) == Ok((n, rest))
  {
    hide LE, FromLE, Pow256;
    FromLEOfLE(n, 16); PowerValues();
    assert FromLE(LE(n, 16)) == n;
  }

  lemma ReadBackBlob(v: bytes, rest: bytes)
    requires |v| < U32_LIMIT
    ensures ReadBlob(PutBlob(v, rest)) == Ok((v, rest))
  {
    ReadBack32(|v|, v + rest);
  }

  lemma ReadBackArgon2(p: Argon2Params, rest: bytes)
    requires Argon2InRange(p)
    ensures ReadArgon2(PutArgon2(p, rest)) == Ok((p, rest))
  {
    var t3 := p.salt + rest;
    var t2 := LE(p.parallelism, 4) + t3;
    var t1 := LE(p.time, 4) + t2;
    ReadBack32(p.memKib, t1);
    ReadBack32(p.time, t2);
    ReadBack32(p.parallelism, t3);
  }

  /** What a cursor read must deliver: the parsed value with the remaining bytes, or the parse error. */
  ghost predicate Delivers<T(!new)>(spec: Parse<T>, got: Result<T>, left: bytes) {
    match spec
    case Ok((v, rest)) => got == Ok(v) && left == rest
    case Err(e) => got == Err(e)
  }

  class Cursor {
    const d: bytes
    var i: nat

    ghost predicate Valid()
      reads this
    {
      i <= |d|
    }

    ghost function Rest(): bytes
      reads this
      requires Valid()
    {
      d[i..]
    }

    constructor (d: bytes)
      ensures Valid() && this.d == d && Rest() == d
    {
      this.d := d;
      i := 0;
    }

    method Take(n: nat) returns (r: Result<bytes>)
      requires Valid()
      modifies this
      ensures Valid() && Delivers(Split(old(Rest()), n), r, Rest())
      ensures r.Err? ==> i == old(i)
      ensures r.Ok? ==> i == old(i) + n
    {
      var end := i + n;
      if end > |d| {
        return Err(Format(Truncated));
      }
      var s := d[i..end];
      assert s == d[i..][..n] && d[end..] == d[i..][n..];
      i := end;
      return Ok(s);
    }

    method U8() returns (r: Result<byte>)
      requires Valid()
      modifies this
      ensures Valid() && Delivers(ReadByte(old(Rest())), r, Rest())
    {
      var b :- Take(1);
      return Ok(b[0]);
    }

    method U16() returns (r: Result<u16>)
      requires Valid()
      modifies this
      ensures Valid() && Delivers(ReadU16(old(Rest())), r, Rest())
    {
      var b :- Take(2);
      LEOfFromLE(b); PowerValues();
      return Ok(FromLE(b));
    }

    method U32() returns (r: Result<u32>)
      requires Valid()
      modifies this
      ensures Valid() && Delivers(ReadU32(old(Rest())), r, Rest())
    {
      var b :- Take(4);
      LEOfFromLE(b); PowerValues();
      return Ok(FromLE(b));
    }

    method U128() returns (r: Result<u128>)
      requires Valid()
      modifies this
      ensures Valid() && Delivers(ReadU128(old(Rest())), r, Rest())
    {
      var b :- Take(16);
      LEOfFromLE(b); PowerValues();
      return Ok(FromLE(b));
    }

    method Blob() returns (r: Result<bytes>)
      requires Valid()
      modifies this
      ensures Valid() && Delivers(ReadBlob(old(Rest())), r, Rest())
    {
      var n :- U32();
      r := Take(n);
    }

    method Argon2() returns (r: Result<Argon2Params>)
      requires Valid()
      modifies this
      ensures Valid() && Delivers(ReadArgon2(old(Rest())), r, Rest())
    {
      var mem :- U32();
      var time :- U32();
      var par :- U32();
      if mem > MAX_ARGON2_MEM_KIB || time > MAX_ARGON2_TIME || par > MAX_ARGON2_PARALLELISM {
        return Err(Format(Argon2Range));
      }
      var salt :- Take(16);
      return Ok(Argon2Params(mem, time, par, salt));
    }
  }
}
