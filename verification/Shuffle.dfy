/** The Fisher–Yates shuffle of `save`: what one choice vector does, and that every order has exactly one. */
module Shuffle {
  import opened Bytes
  import opened Crypto

  function Swap<T>(s: seq<T>, i: nat, j: nat): (r: seq<T>)
    requires i < |s| && j < |s|
    ensures |r| == |s| && multiset(r) == multiset(s)
  {
    s[i := s[j]][j := s[i]]
  }

  /** One choice per position, each at or below it. */
  predicate Choices(js: seq<nat>, n: nat) {
    |js| == n && forall i :: 0 <= i < n ==> js[i] <= i
  }

  /** The swaps for positions `n - 1` down to 0. */
  function ShuffledBelow<T>(s: seq<T>, js: seq<nat>, n: nat): (r: seq<T>)
    requires Choices(js, |s|) && n <= |s|
    ensures |r| == |s| && multiset(r) == multiset(s)
    ensures forall i :: n <= i < |s| ==> r[i] == s[i]
    decreases n
  {
    if n == 0 then s else ShuffledBelow(Swap(s, n - 1, js[n - 1]), js, n - 1)
  }

  function Shuffled<T>(s: seq<T>, js: seq<nat>): (r: seq<T>)
    requires Choices(js, |s|)
    ensures |r| == |s| && multiset(r) == multiset(s)
  {
    ShuffledBelow(s, js, |s|)
  }

  predicate Distinct<T(==)>(s: seq<T>) {
    forall i, j :: 0 <= i < j < |s| ==> s[i] != s[j]
  }

  lemma SwapKeepsDistinct<T>(s: seq<T>, i: nat, j: nat)
    requires i < |s| && j < |s| && Distinct(s)
    ensures Distinct(Swap(s, i, j))
  {
    var r := Swap(s, i, j);
    forall a, b | 0 <= a < b < |r| ensures r[a] != r[b] {
      var a', b' := (if a == i then j else if a == j then i else a), (if b == i then j else if b == j then i else b);
      assert r[a] == s[a'] && r[b] == s[b'] && a' != b';
    }
  }

  /** With equal tails, what `t` has at the last open position is among the open positions of `s`. */
  lemma OpenPositionOf<T>(s: seq<T>, t: seq<T>, n: nat) returns (j: nat)
    requires 0 < n <= |s| == |t| && multiset(s) == multiset(t) && s[n..] == t[n..]
    ensures j < n && s[j] == t[n - 1]
  {
    assert s == s[..n] + s[n..] && t == t[..n] + t[n..];
    assert multiset(s[..n]) == multiset(s) - multiset(s[n..]);
    assert multiset(t[..n]) == multiset(t) - multiset(t[n..]);
    assert t[n - 1] in t[..n];
    assert t[n - 1] in multiset(s[..n]);
    j :| 0 <= j < n && s[j] == t[n - 1];
  }

  lemma SwapFixes<T>(s: seq<T>, t: seq<T>, n: nat, j: nat)
    requires j < n <= |s| == |t| && s[n..] == t[n..] && s[j] == t[n - 1]
    ensures Swap(s, n - 1, j)[n - 1..] == t[n - 1..]
  {
    var u := Swap(s, n - 1, j);
    forall i | n - 1 <= i < |s| ensures u[i] == t[i] {
      assert i >= n ==> s[n..][i - n] == t[n..][i - n];
    }
  }

  lemma {:induction false} EveryOrderReachedBelow<T>(s: seq<T>, t: seq<T>, n: nat) returns (js: seq<nat>)
    requires n <= |s| == |t| && multiset(t) == multiset(s) && s[n..] == t[n..]
    ensures Choices(js, |s|) && ShuffledBelow(s, js, n) == t
    decreases n
  {
    hide Swap;
    if n == 0 {
      js := seq(|s|, _ => 0);
    } else {
      var j := OpenPositionOf(s, t, n);
      var u := Swap(s, n - 1, j);
      SwapFixes(s, t, n, j);
      var below := EveryOrderReachedBelow(u, t, n - 1);
      js := below[n - 1 := j];
      SameBelow(u, below, js, n - 1);
    }
  }

  /** Only the choices below `n` matter to the swaps below `n`. */
  lemma {:induction false} SameBelow<T>(s: seq<T>, js: seq<nat>, ks: seq<nat>, n: nat)
    requires Choices(js, |s|) && Choices(ks, |s|) && n <= |s|
    requires forall i :: 0 <= i < n ==> js[i] == ks[i]
    ensures ShuffledBelow(s, js, n) == ShuffledBelow(s, ks, n)
    decreases n
  {
    hide Swap;
    if n > 0 {
      SameBelow(Swap(s, n - 1, js[n - 1]), js, ks, n - 1);
    }
  }

  /** Every rearrangement is reached, repeated elements or not. */
  lemma EveryOrderReached<T>(s: seq<T>, t: seq<T>)
    requires multiset(t) == multiset(s)
    ensures exists js :: Choices(js, |s|) && Shuffled(s, js) == t
  {
    assert |t| == |multiset(t)| == |s|;
    var js := EveryOrderReachedBelow(s, t, |s|);
  }

  lemma ShuffleStep<T>(s: seq<T>, js: seq<nat>, n: nat)
    requires Choices(js, |s|) && 0 < n <= |s|
    ensures ShuffledBelow(s, js, n) == ShuffledBelow(Swap(s, n - 1, js[n - 1]), js, n - 1)
  {
    hide Swap;
  }

  lemma LastIsChosen<T>(s: seq<T>, js: seq<nat>, n: nat)
    requires Choices(js, |s|) && 0 < n <= |s|
    ensures ShuffledBelow(s, js, n)[n - 1] == s[js[n - 1]]
  {
    hide ShuffledBelow;
    ShuffleStep(s, js, n);
    var t := Swap(s, n - 1, js[n - 1]);
    assert ShuffledBelow(t, js, n - 1)[n - 1] == t[n - 1];
  }

  lemma {:induction false} ChoicesDeterminedBelow<T>(s: seq<T>, js: seq<nat>, ks: seq<nat>, n: nat)
    requires Distinct(s) && Choices(js, |s|) && Choices(ks, |s|) && n <= |s|
    requires ShuffledBelow(s, js, n) == ShuffledBelow(s, ks, n)
    ensures forall i :: 0 <= i < n ==> js[i] == ks[i]
    decreases n
  {
    hide Swap;
    if n > 0 {
      LastIsChosen(s, js, n);
      LastIsChosen(s, ks, n);
      assert js[n - 1] == ks[n - 1];
      SwapKeepsDistinct(s, n - 1, js[n - 1]);
      ChoicesDeterminedBelow(Swap(s, n - 1, js[n - 1]), js, ks, n - 1);
    }
  }

  /** For distinct elements no order is reached by two choice vectors. */
  lemma ChoicesDetermined<T>(s: seq<T>, js: seq<nat>, ks: seq<nat>)
    requires Distinct(s) && Choices(js, |s|) && Choices(ks, |s|)
    ensures Shuffled(s, js) == Shuffled(s, ks) <==> js == ks
  {
    if Shuffled(s, js) == Shuffled(s, ks) {
      ChoicesDeterminedBelow(s, js, ks, |s|);
    }
  }

  /** A position's choice from one eight-byte draw. */
  function Choice(draw: bytes, i: nat): (j: nat)
    ensures j <= i
  {
    FromLE(draw) % (i + 1)
  }

  /** The choices read from the random source: position `i` of `n` takes the draw number `n - 1 - i`. */
  function DrawnChoices(t: Tape, pos: nat, n: nat): (js: seq<nat>)
    ensures Choices(js, n)
  {
    hide Choice, At;
    seq(n, i requires 0 <= i < n => Choice(At(t, pos + 8 * (n - 1 - i), 8), i))
  }

  /** The draws that make the given choices, in the order they are taken. */
  function DrawsFor(js: seq<nat>): (draws: seq<bytes>)
    ensures |draws| == |js| && forall k :: 0 <= k < |draws| ==> |draws[k]| == 8
  {
    seq(|js|, k requires 0 <= k < |js| => LE(js[|js| - 1 - k], 8))
  }

  lemma DrawChooses(j: nat, i: nat)
    requires j <= i < U64_LIMIT
    ensures Choice(LE(j, 8), i) == j
  {
    hide LE, FromLE;
    EightBytes(j, []);
    SmallMod(j, i + 1);
  }

  lemma DrawsChoose(t: Tape, pos: nat, js: seq<nat>)
    requires Choices(js, |js|) && |js| <= U64_LIMIT
    requires forall k :: 0 <= k < |js| ==> At(t, pos + 8 * k, 8) == DrawsFor(js)[k]
    ensures DrawnChoices(t, pos, |js|) == js
  {
    hide Choice, At;
    var n := |js|;
    forall i | 0 <= i < n ensures DrawnChoices(t, pos, n)[i] == js[i] {
      assert At(t, pos + 8 * (n - 1 - i), 8) == DrawsFor(js)[n - 1 - i] == LE(js[i], 8);
      DrawChooses(js[i], i);
    }
  }

  /** The random source decides the order, and any order: every rearrangement is what the shuffle makes of the
      bytes of some source, which may be any source outside the bytes the shuffle reads. */
  lemma SourceDecidesOrder<T>(s: seq<T>, order: seq<T>, t: Tape, pos: nat) returns (t': Tape)
    requires multiset(order) == multiset(s) && |s| <= U64_LIMIT
    ensures Shuffled(s, DrawnChoices(t', pos, |s|)) == order
    ensures forall p: nat, n: nat :: p + n <= pos || p >= pos + 8 * |s| ==> At(t', p, n) == At(t, p, n)
  {
    hide DrawnChoices, Shuffled, At, DrawsFor, WithBlocks;
    EveryOrderReached(s, order);
    var js :| Choices(js, |s|) && Shuffled(s, js) == order;
    var draws := DrawsFor(js);
    t' := WithBlocks(t, pos, 8, draws);
    BlocksDelivered(t, pos, 8, draws);
    DrawsChoose(t', pos, js);
    forall p: nat, n: nat | p + n <= pos || p >= pos + 8 * |s| ensures At(t', p, n) == At(t, p, n) {
      BlocksElsewhere(t, pos, 8, draws, p, n);
    }
  }

  /** The numbers that leave the remainder `j` by `i + 1`, in order. */
  function Congruent(i: nat, j: nat, q: nat): nat {
    j + (i + 1) * q
  }

  /** How often each choice comes up: the eight-byte draws that choose `j` spell `j`, `j + (i + 1)` and so on, and
      there are 2^64 / (i + 1) of them, or one more: no choice is ahead of another by more than one draw. */
  lemma ChoiceBias(i: nat, j: nat) returns (count: nat)
    requires j <= i < U64_LIMIT
    ensures U64_LIMIT / (i + 1) <= count <= U64_LIMIT / (i + 1) + 1
    ensures forall q: nat :: q < count <==> Congruent(i, j, q) < U64_LIMIT
    ensures forall draw: bytes :: |draw| == 8 ==>
              (Choice(draw, i) == j <==> exists q: nat :: q < count && FromLE(draw) == Congruent(i, j, q))
  {
    hide LE, FromLE, Congruent;
    count := U64_LIMIT / (i + 1) + if j < U64_LIMIT % (i + 1) then 1 else 0;
    forall q: nat ensures q < count <==> Congruent(i, j, q) < U64_LIMIT {
      CongruentBelow(i, j, q, U64_LIMIT);
    }
    forall draw: bytes | |draw| == 8
      ensures Choice(draw, i) == j <==> exists q: nat :: q < count && FromLE(draw) == Congruent(i, j, q)
    {
      EightBytes(0, draw);
      RemainderIff(FromLE(draw), i, j);
    }
  }

  lemma RemainderIff(n: nat, i: nat, j: nat)
    requires j <= i
    ensures n % (i + 1) == j <==> exists q: nat :: n == Congruent(i, j, q)
  {
    if n % (i + 1) == j {
      assert n == Congruent(i, j, n / (i + 1));
    }
    forall q: nat | n == Congruent(i, j, q) ensures n % (i + 1) == j {
      ModUnique(n, i + 1, q, j);
    }
  }

  lemma CongruentBelow(i: nat, j: nat, q: nat, m: nat)
    requires j <= i
    ensures Congruent(i, j, q) < m <==> q < m / (i + 1) + if j < m % (i + 1) then 1 else 0
  {
    RowBelow(i + 1, j, q, m / (i + 1), m % (i + 1));
  }

  lemma RowBelow(n: nat, j: nat, q: nat, full: nat, rest: nat)
    requires j < n && rest < n
    ensures j + n * q < n * full + rest <==> q < full + if j < rest then 1 else 0
  {
    if q < full {
      Grows(n, q + 1, full);
      NextRow(n, q);
    } else if q > full {
      Grows(n, full + 1, q);
      NextRow(n, full);
    }
  }

  lemma NextRow(n: nat, q: nat)
    ensures n * (q + 1) == n * q + n
  {
  }

  lemma FirstStaysPut<T>(s: seq<T>, js: seq<nat>)
    requires Choices(js, |s|) && |s| > 0
    ensures ShuffledBelow(s, js, 1) == s
  {
    assert js[0] == 0;
    assert ShuffledBelow(s, js, 1) == ShuffledBelow(Swap(s, 0, 0), js, 0);
    assert Swap(s, 0, 0) == s;
  }

  method SwapElements<T>(a: array<T>, i: nat, j: nat)
    requires i < a.Length && j < a.Length
    modifies a
    ensures a[..] == Swap(old(a[..]), i, j)
  {
    a[i], a[j] := a[j], a[i];
  }

  /** `shuffle_raw`: swaps in place from the back, one eight-byte draw for each position above the first. */
  method ShuffleInPlace<T>(a: array<T>, rng: Rng)
    modifies a, rng
    ensures a[..] == Shuffled(old(a[..]), DrawnChoices(rng.tape, old(rng.pos), a.Length))
    ensures rng.pos == old(rng.pos) + if a.Length == 0 then 0 else 8 * (a.Length - 1)
  {
    hide Choice, At, Swap, ShuffledBelow;
    var n := a.Length;
    ghost var js := DrawnChoices(rng.tape, rng.pos, n);
    if n == 0 {
      return;
    }
    var i := n - 1;
    while i > 0
      invariant 0 <= i < n
      invariant rng.pos == old(rng.pos) + 8 * (n - 1 - i)
      invariant ShuffledBelow(a[..], js, i + 1) == Shuffled(old(a[..]), js)
    {
      var b := rng.Fill(8);
      var j := Choice(b, i);
      assert j == js[i];
      ShuffleStep(a[..], js, i + 1);
      SwapElements(a, i, j);
      i := i - 1;
    }
    FirstStaysPut(a[..], js);
  }
}
