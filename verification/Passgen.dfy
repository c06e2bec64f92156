/** Rejection sampling: which bytes the generator uses, and why every password is equally likely. */
module Passgen {
  import opened Bytes
  import opened Crypto

  /** `n` consecutive character codes. */
  function Codes(first: byte, n: nat): (s: bytes)
    requires first + n <= 256
    ensures |s| == n
  {
    seq(n, i requires 0 <= i < n => first + i)
  }

  const LOWER: bytes := Codes(97, 26)
  const UPPER: bytes := Codes(65, 26)
  const DIGITS: bytes := Codes(48, 10)
  /** `!@#$%^&*()-_=+[]{};:,.<>?` */
  const SYMBOLS: bytes :=
    [33, 64, 35, 36, 37, 94, 38, 42, 40, 41, 45, 95, 61, 43, 91, 93, 123, 125, 59, 58, 44, 46, 60, 62, 63]

  function Charset(symbols: bool): (cs: bytes)
    ensures |cs| == if symbols then 87 else 62
  {
    LOWER + UPPER + DIGITS + if symbols then SYMBOLS else []
  }

  /** The largest multiple of the charset size that fits a byte: bytes from here on are rejected. */
  function Threshold(n: nat): nat
    requires n > 0
  {
    (256 / n) * n
  }

  function Accepted(stream: bytes, threshold: nat): bytes {
    if stream == [] then []
    else (if stream[0] < threshold then [stream[0]] else []) + Accepted(stream[1..], threshold)
  }

  lemma {:induction false} AcceptedAppends(a: bytes, b: bytes, threshold: nat)
    ensures Accepted(a + b, threshold) == Accepted(a, threshold) + Accepted(b, threshold)
  {
    if a == [] {
      assert a + b == b;
    } else {
      assert (a + b)[0] == a[0] && (a + b)[1..] == a[1..] + b;
      AcceptedAppends(a[1..], b, threshold);
    }
  }

  lemma AcceptedOne(a: bytes, x: byte, threshold: nat)
    ensures Accepted(a + [x], threshold) == Accepted(a, threshold) + if x < threshold then [x] else []
  {
    AcceptedAppends(a, [x], threshold);
    assert [x][1..] == [];
  }

  /** A longer read of the same stream accepts at least as much, with the same beginning. */
  lemma AcceptedGrows(t: Tape, pos: nat, a: nat, b: nat, threshold: nat)
    requires a <= b
    ensures Accepted(At(t, pos, a), threshold) <= Accepted(At(t, pos, b), threshold)
  {
    assert At(t, pos, b) == At(t, pos, a) + At(t, pos + a, b - a);
    AcceptedAppends(At(t, pos, a), At(t, pos + a, b - a), threshold);
  }

  function Password(accepted: bytes, cs: bytes): (p: bytes)
    requires cs != []
    ensures |p| == |accepted|
  {
    seq(|accepted|, i requires 0 <= i < |accepted| => cs[accepted[i] % |cs|])
  }

  lemma PasswordSnoc(a: bytes, x: byte, cs: bytes)
    requires cs != []
    ensures Password(a + [x], cs) == Password(a, cs) + [cs[x % |cs|]]
  {
  }

  /** `generate_password`: batches of random bytes until enough are accepted. The loop ends exactly on streams
      that hold enough accepted bytes, which `enough` bounds; the password is then the first `len` accepted
      bytes of the whole stream through the charset, whatever the batching. */
  method GeneratePassword(len: nat, symbols: bool, rng: Rng, ghost enough: nat) returns (out: bytes, n: nat)
    requires |Accepted(At(rng.tape, rng.pos, enough), Threshold(|Charset(symbols)|))| >= len
    modifies rng
    ensures n == |Charset(symbols)|
    ensures out == Password(Accepted(At(rng.tape, old(rng.pos), enough), Threshold(n))[..len], Charset(symbols))
  {
    hide Password, Accepted, At, Charset;
    var charset := Charset(symbols);
    n := |charset|;
    var threshold := Threshold(n);
    ghost var t, p0 := rng.tape, rng.pos;
    ghost var used: bytes := [];
    out := [];
    NothingAccepted(t, p0, threshold, charset);
    while |out| < len
      invariant rng.pos >= p0
      invariant |used| == |out| <= len && out == Password(used, charset)
      invariant if |out| < len then used == Accepted(At(t, p0, rng.pos - p0), threshold)
                else used <= Accepted(At(t, p0, rng.pos - p0), threshold)
      decreases enough - (rng.pos - p0)
    {
      ghost var c0 := rng.pos - p0;
      if c0 >= enough {
        AcceptedGrows(t, p0, enough, c0, threshold);
        assert false;
      }
      var need := len - |out|;
      var size := if 2 * need < 16 then 16 else 2 * need;
      var batch := rng.Fill(size);
      var j := 0;
      while j < |batch| && |out| < len
        invariant rng.pos == p0 + c0 + size
        invariant j <= |batch| == size && |used| == |out| <= len && out == Password(used, charset)
        invariant used == Accepted(At(t, p0, c0 + j), threshold)
      {
        ByteOf(t, p0, c0, size, j);
        AcceptedOne(At(t, p0, c0 + j), batch[j], threshold);
        if batch[j] < threshold {
          PasswordSnoc(used, batch[j], charset);
          out := out + [charset[batch[j] % n]];
          used := used + [batch[j]];
        }
        j := j + 1;
      }
      AcceptedGrows(t, p0, c0 + j, c0 + size, threshold);
    }
    SameStart(t, p0, rng.pos - p0, enough, threshold, used);
  }

  lemma NothingAccepted(t: Tape, pos: nat, threshold: nat, cs: bytes)
    requires cs != []
    ensures Accepted(At(t, pos, 0), threshold) == [] && Password([], cs) == []
  {
  }

  lemma ByteOf(t: Tape, p0: nat, c0: nat, size: nat, j: nat)
    requires j < size
    ensures At(t, p0, c0 + j + 1) == At(t, p0, c0 + j) + [At(t, p0 + c0, size)[j]]
  {
  }

  lemma SameStart(t: Tape, p0: nat, a: nat, b: nat, threshold: nat, used: bytes)
    requires used <= Accepted(At(t, p0, a), threshold) && |used| <= |Accepted(At(t, p0, b), threshold)|
    ensures used == Accepted(At(t, p0, b), threshold)[..|used|]
  {
    if a <= b {
      AcceptedGrows(t, p0, a, b, threshold);
    } else {
      AcceptedGrows(t, p0, b, a, threshold);
    }
  }

  // ---------- uniformity ----------

  /** The accepted bytes that pick charset index `k`. */
  function BytesFor(k: nat, n: nat): set<byte>
    requires n > 0
  {
    set b: byte | b < Threshold(n) && b % n == k
  }

  function BytesBelow(k: nat, n: nat, q: nat): set<byte>
    requires n > 0
  {
    set b: byte | b < q * n && b % n == k
  }

  /** Between two multiples of `n` lies one number with a given remainder. */
  lemma OnlyOneInRow(b: nat, k: nat, n: nat, q: nat)
    requires k < n && (q * n) <= b < (q + 1) * n
    ensures b % n == k <==> b == q * n + k
  {
    assert (q + 1) * n == q * n + n;
    ModUnique(b, n, q, b - q * n);
  }

  lemma {:induction false} OnePerRow(k: nat, n: nat, q: nat)
    requires k < n && q * n <= 256
    ensures |BytesBelow(k, n, q)| == q
  {
    if q == 0 {
      assert BytesBelow(k, n, 0) == {};
    } else {
      assert q * n == (q - 1) * n + n;
      var x: byte := (q - 1) * n + k;
      OnePerRow(k, n, q - 1);
      forall b: byte | (q - 1) * n <= b < q * n ensures b % n == k <==> b == x {
        OnlyOneInRow(b, k, n, q - 1);
      }
      AddRow(k, n, q, x);
    }
  }

  lemma AddRow(k: nat, n: nat, q: nat, x: byte)
    requires n > 0 && q > 0 && (q - 1) * n <= x < q * n
    requires forall b: byte :: (q - 1) * n <= b < q * n ==> (b % n == k <==> b == x)
    ensures |BytesBelow(k, n, q)| == |BytesBelow(k, n, q - 1)| + 1
  {
    var before := BytesBelow(k, n, q - 1);
    assert (q - 1) * n <= q * n;
    assert x !in before;
    assert BytesBelow(k, n, q) == before + {x};
  }

  /** Every charset index has the same number of accepted bytes. */
  lemma EveryIndexEquallyLikely(k: nat, n: nat)
    requires k < n <= 256
    ensures |BytesFor(k, n)| == 256 / n
  {
    var q := 256 / n;
    assert 256 == n * q + 256 % n;
    assert q * n <= 256;
    OnePerRow(k, n, q);
    assert BytesFor(k, n) == BytesBelow(k, n, q);
  }

  function Power(b: nat, e: nat): nat {
    if e == 0 then 1 else Power(b, e - 1) * b
  }

  function Product(ts: set<bytes>, bs: set<byte>): set<bytes> {
    set t, b | t in ts && b in bs :: t + [b]
  }

  /** All accepted byte tuples that spell the index sequence `p`. */
  function TuplesFor(p: seq<nat>, n: nat): set<bytes>
    requires n > 0
    decreases |p|
  {
    if p == [] then {[]}
    else Product(TuplesFor(p[..|p| - 1], n), BytesFor(p[|p| - 1], n))
  }

  lemma {:induction false} TuplesForAre(p: seq<nat>, n: nat, t: bytes)
    requires n > 0
    ensures t in TuplesFor(p, n) <==>
              |t| == |p| && forall i :: 0 <= i < |p| ==> t[i] < Threshold(n) && t[i] % n == p[i]
    decreases |p|
  {
    if p != [] {
      var front := p[..|p| - 1];
      if |t| == |p| {
        TuplesForAre(front, n, t[..|p| - 1]);
        assert t == t[..|p| - 1] + [t[|p| - 1]];
        assert t[|p| - 1] in BytesFor(p[|p| - 1], n) <==> t[|p| - 1] < Threshold(n) && t[|p| - 1] % n == p[|p| - 1];
        if t in TuplesFor(p, n) {
          var u, b :| u in TuplesFor(front, n) && b in BytesFor(p[|p| - 1], n) && t == u + [b];
          assert u == t[..|p| - 1] && b == t[|p| - 1];
        }
      } else if t in TuplesFor(p, n) {
        var u, b :| u in TuplesFor(front, n) && b in BytesFor(p[|p| - 1], n) && t == u + [b];
        TuplesForAre(front, n, u);
      }
    }
  }

  lemma OneMore(a: nat, b: nat, c: nat)
    requires c == b + 1
    ensures a * c == a * b + a
  {
  }

  lemma {:induction false} ProductSize(ts: set<bytes>, bs: set<byte>)
    ensures |Product(ts, bs)| == |ts| * |bs|
    decreases |bs|
  {
    var all := Product(ts, bs);
    if bs == {} {
      assert all == {};
    } else {
      var x :| x in bs;
      var rest := bs - {x};
      var others := Product(ts, rest);
      var ending := set t | t in ts :: t + [x];
      ProductSize(ts, rest);
      EndingSize(ts, x);
      assert all == others + ending by {
        forall u | u in all ensures u in others + ending {
          var t, b :| t in ts && b in bs && u == t + [b];
          if b == x {
            assert u in ending;
          } else {
            assert b in rest;
          }
        }
      }
      assert others * ending == {} by {
        forall u | u in others ensures u !in ending {
          var t, b :| t in ts && b in rest && u == t + [b];
          assert u[|u| - 1] == b != x;
        }
      }
      assert |all| == |others| + |ending|;
      assert |bs| == |rest| + 1;
      OneMore(|ts|, |rest|, |bs|);
    }
  }

  lemma {:induction false} EndingSize(ts: set<bytes>, x: byte)
    ensures |set t | t in ts :: t + [x]| == |ts|
    decreases |ts|
  {
    var all := set t | t in ts :: t + [x];
    if ts == {} {
      assert all == {};
    } else {
      var y :| y in ts;
      var rest := ts - {y};
      var others := set t | t in rest :: t + [x];
      EndingSize(rest, x);
      assert all == others + {y + [x]} by {
        forall u | u in all ensures u in others + {y + [x]} {
          var t :| t in ts && u == t + [x];
          if t != y {
            assert t in rest;
          }
        }
      }
      assert y + [x] !in others by {
        forall t | t in rest ensures t + [x] != y + [x] {
          assert (t + [x])[..|t + [x]| - 1] == t && (y + [x])[..|y + [x]| - 1] == y;
        }
      }
    }
  }

  lemma {:induction false} EverySequenceEquallyLikely(p: seq<nat>, n: nat)
    requires 0 < n <= 256 && forall i :: 0 <= i < |p| ==> p[i] < n
    ensures |TuplesFor(p, n)| == Power(256 / n, |p|)
    decreases |p|
  {
    hide BytesFor;
    if p != [] {
      var front, k := p[..|p| - 1], p[|p| - 1];
      EverySequenceEquallyLikely(front, n);
      EveryIndexEquallyLikely(k, n);
      ProductSize(TuplesFor(front, n), BytesFor(k, n));
      assert Power(256 / n, |p|) == Power(256 / n, |front|) * (256 / n);
    }
  }

  // ---------- on the charset itself ----------

  /** The position of a character in the charset. */
  function IndexOf(c: byte): nat {
    if 97 <= c <= 122 then c - 97
    else if 65 <= c <= 90 then 26 + c - 65
    else if 48 <= c <= 57 then 52 + c - 48
    else 62 + SymbolIndex(c)
  }

  function SymbolIndex(c: byte): nat {
    if c == 33 then 0 else if c == 64 then 1 else if 35 <= c <= 37 then c - 33 else if c == 94 then 5
    else if c == 38 then 6 else if c == 42 then 7 else if c == 40 then 8 else if c == 41 then 9
    else if c == 45 then 10 else if c == 95 then 11 else if c == 61 then 12 else if c == 43 then 13
    else if c == 91 then 14 else if c == 93 then 15 else if c == 123 then 16 else if c == 125 then 17
    else if c == 59 then 18 else if c == 58 then 19 else if c == 44 then 20 else if c == 46 then 21
    else if c == 60 then 22 else if c == 62 then 23 else 24
  }

  lemma SymbolsIndexed(i: nat)
    requires i < 25
    ensures SymbolIndex(SYMBOLS[i]) == i
    ensures !(97 <= SYMBOLS[i] <= 122) && !(65 <= SYMBOLS[i] <= 90) && !(48 <= SYMBOLS[i] <= 57)
  {
  }

  lemma CharsetIndexed(symbols: bool, i: nat)
    requires i < |Charset(symbols)|
    ensures IndexOf(Charset(symbols)[i]) == i
  {
    hide SymbolIndex, SYMBOLS;
    if i >= 62 {
      SymbolsIndexed(i - 62);
    }
  }

  function Indexes(password: bytes): seq<nat> {
    seq(|password|, i requires 0 <= i < |password| => IndexOf(password[i]))
  }

  /** Exact uniformity: every password over the charset is produced by exactly (256 / n)^len of the accepted
      byte tuples of its length. */
  lemma EveryPasswordEquallyLikely(password: bytes, symbols: bool)
    requires forall i :: 0 <= i < |password| ==> password[i] in Charset(symbols)
    ensures var cs := Charset(symbols);
            var tuples := TuplesFor(Indexes(password), |cs|);
            && |tuples| == Power(256 / |cs|, |password|)
            && forall t: bytes :: t in tuples <==>
                 (forall i :: 0 <= i < |t| ==> t[i] < Threshold(|cs|)) && Password(t, cs) == password
  {
    hide Charset, IndexOf, BytesFor, Threshold, Power, TuplesFor;
    var cs, p := Charset(symbols), Indexes(password);
    var n := |cs|;
    forall i | 0 <= i < |p| ensures p[i] < n && cs[p[i]] == password[i] {
      var j :| 0 <= j < n && cs[j] == password[i];
      CharsetIndexed(symbols, j);
    }
    EverySequenceEquallyLikely(p, n);
    forall t: bytes
      ensures t in TuplesFor(p, n)
         <==> (forall i :: 0 <= i < |t| ==> t[i] < Threshold(n)) && Password(t, cs) == password
    {
      TuplesForAre(p, n, t);
      SpellsIff(t, p, password, symbols);
    }
  }

  lemma SpellsIff(t: bytes, p: seq<nat>, password: bytes, symbols: bool)
    requires |p| == |password|
    requires var cs := Charset(symbols);
             forall i :: 0 <= i < |p| ==> p[i] < |cs| && cs[p[i]] == password[i]
    ensures Password(t, Charset(symbols)) == password <==>
              |t| == |p| && forall i :: 0 <= i < |p| ==> t[i] % |Charset(symbols)| == p[i]
  {
    hide Charset, IndexOf;
    var cs := Charset(symbols);
    if Password(t, cs) == password {
      assert |t| == |p|;
      forall i | 0 <= i < |p| ensures t[i] % |cs| == p[i] {
        assert Password(t, cs)[i] == password[i];
        CharsetIndexed(symbols, t[i] % |cs|);
        CharsetIndexed(symbols, p[i]);
      }
    }
  }
}
