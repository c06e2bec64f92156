/** Searching a dump: the naive count, the streaming counter with its carry, and the independent scanner. */
module NeedleCount {
  import opened Bytes
  import opened Wrappers

  predicate MatchAt(hay: bytes, needle: bytes, k: nat) {
    k + |needle| <= |hay| && hay[k..k + |needle|] == needle
  }

  /** Windows below `n` that equal the needle. */
  function CountBelow(hay: bytes, needle: bytes, n: nat): nat {
    if n == 0 then 0 else CountBelow(hay, needle, n - 1) + if MatchAt(hay, needle, n - 1) then 1 else 0
  }

  /** Offsets at which a window of `len` bytes starts within the first `upto` bytes. */
  function Starts(upto: nat, len: nat): nat {
    if upto < len then 0 else upto - len + 1
  }

  /** `count_occurrences`: overlapping matches allowed. */
  function Count(hay: bytes, needle: bytes): nat {
    if needle == [] then 0 else CountBelow(hay, needle, Starts(|hay|, |needle|))
  }

  function Matches(hay: bytes, needle: bytes, n: nat): set<nat> {
    set k: nat | k < n && MatchAt(hay, needle, k)
  }

  lemma {:induction false} CountIsCardinality(hay: bytes, needle: bytes, n: nat)
    ensures CountBelow(hay, needle, n) == |Matches(hay, needle, n)|
  {
    if n == 0 {
      assert Matches(hay, needle, 0) == {};
    } else {
      CountIsCardinality(hay, needle, n - 1);
      var below := Matches(hay, needle, n - 1);
      assert Matches(hay, needle, n) == if MatchAt(hay, needle, n - 1) then below + {n - 1} else below;
    }
  }

  /** The count is the number of offsets at which the needle occurs. */
  lemma CountMeaning(hay: bytes, needle: bytes)
    requires needle != []
    ensures Count(hay, needle) == |Matches(hay, needle, |hay|)|
  {
    var n := Starts(|hay|, |needle|);
    CountIsCardinality(hay, needle, n);
    assert Matches(hay, needle, |hay|) == Matches(hay, needle, n);
  }

  lemma SliceOfSlice(s: bytes, a: nat, q: nat, k: nat, m: nat)
    requires a <= q <= |s| && a + k + m <= q
    ensures s[a..q][k..k + m] == s[a + k..a + k + m]
  {
    var x, y := s[a..q][k..k + m], s[a + k..a + k + m];
    assert forall i :: 0 <= i < m ==> x[i] == y[i];
  }

  lemma Adjacent(s: bytes, a: nat, b: nat, c: nat)
    requires a <= b <= c <= |s|
    ensures s[a..b] + s[b..c] == s[a..c]
  {
  }

  lemma ShiftedMatch(file: bytes, needle: bytes, a: nat, q: nat, k: nat)
    requires a <= q <= |file| && k + |needle| <= q - a
    ensures MatchAt(file[a..q], needle, k) <==> MatchAt(file, needle, a + k)
  {
    SliceOfSlice(file, a, q, k, |needle|);
  }

  /** Counting in a slice is counting in the file between the slice's ends. */
  lemma {:induction false} SliceCount(file: bytes, needle: bytes, a: nat, q: nat, n: nat)
    requires a <= q <= |file| && n <= Starts(q - a, |needle|)
    ensures CountBelow(file[a..q], needle, n) + CountBelow(file, needle, a) == CountBelow(file, needle, a + n)
  {
    hide MatchAt;
    if n > 0 {
      SliceCount(file, needle, a, q, n - 1);
      ShiftedMatch(file, needle, a, q, n - 1);
      assert CountBelow(file[a..q], needle, n) == CountBelow(file[a..q], needle, n - 1)
        + if MatchAt(file[a..q], needle, n - 1) then 1 else 0;
      assert CountBelow(file, needle, a + n) == CountBelow(file, needle, a + n - 1)
        + if MatchAt(file, needle, a + n - 1) then 1 else 0;
    }
  }

  lemma PrefixCount(file: bytes, needle: bytes, p: nat)
    requires needle != [] && p <= |file|
    ensures Count(file[..p], needle) == CountBelow(file, needle, Starts(p, |needle|))
  {
    hide CountBelow, MatchAt;
    SliceCount(file, needle, 0, p, Starts(p, |needle|));
    NoneBelowZero(file, needle);
    assert file[0..p] == file[..p];
  }

  lemma NoneBelowZero(hay: bytes, needle: bytes)
    ensures CountBelow(hay, needle, 0) == 0
  {
  }

  /** One more chunk: with the last `|needle| - 1` bytes carried over, every match ending in the chunk is
      counted once, and none that ended before it is counted again. */
  lemma ChunkCount(file: bytes, needle: bytes, p: nat, q: nat, carry: nat)
    requires needle != [] && p <= q <= |file|
    requires carry == if p < |needle| - 1 then p else |needle| - 1
    ensures Count(file[..q], needle) == Count(file[..p], needle) + Count(file[p - carry..q], needle)
  {
    hide CountBelow, MatchAt;
    var m := |needle|;
    PrefixCount(file, needle, p);
    PrefixCount(file, needle, q);
    SliceCount(file, needle, p - carry, q, Starts(q - (p - carry), m));
    assert CountBelow(file, needle, 0) == 0 by { NoneBelowZero(file, needle); }
  }

  /** What the operating system makes of each read: an error, or some number of bytes to aim for. */
  type Schedule = nat -> Option<nat>

  const CHUNK: nat := 0x10_0000

  class File {
    const data: bytes
    const schedule: Schedule
    var pos: nat
    var calls: nat

    predicate Valid()
      reads this
    {
      pos <= |data|
    }

    constructor (data: bytes, schedule: Schedule)
      ensures Valid() && this.data == data && this.schedule == schedule && pos == 0 && calls == 0
    {
      this.data := data;
      this.schedule := schedule;
      pos, calls := 0, 0;
    }

    /** Fills some of `buf` from `start` on: nothing only at the end of the file or of the buffer. */
    method Read(buf: array<byte>, start: nat) returns (r: Result<nat>)
      requires Valid() && start <= buf.Length
      modifies this, buf
      ensures Valid() && calls == old(calls) + 1
      ensures r.Err? <==> schedule(old(calls)).None?
      ensures r.Err? ==> pos == old(pos)
      ensures r.Ok? ==>
                && start + r.value <= buf.Length && pos == old(pos) + r.value
                && (r.value == 0 <==> old(pos) == |data| || start == buf.Length)
                && buf[start..start + r.value] == data[old(pos)..pos]
                && buf[..start] == old(buf[..start])
    {
      var outcome := schedule(calls);
      calls := calls + 1;
      if outcome.None? {
        return Err(Io);
      }
      var space, left := buf.Length - start, |data| - pos;
      var most := if space < left then space else left;
      var n := if most == 0 then 0 else 1 + outcome.value % most;
      forall k | 0 <= k < n {
        buf[start + k] := data[pos + k];
      }
      pos := pos + n;
      return Ok(n);
    }
  }

  /** `buf.copy_within(from..from + n, 0)`. */
  method CopyWithin(buf: array<byte>, from: nat, n: nat)
    requires from + n <= buf.Length
    modifies buf
    ensures buf[..n] == old(buf[from..from + n])
  {
    forall k | 0 <= k < n {
      buf[k] := buf[from + k];
    }
  }

  /** The loop's state after `pos` bytes: their count, and the bytes a match may still need. */
  predicate Scanned(data: bytes, needle: bytes, pos: nat, carried: bytes, count: nat) {
    && needle != [] && pos <= |data|
    && |carried| == (if pos < |needle| - 1 then pos else |needle| - 1)
    && carried == data[pos - |carried|..pos]
    && count == Count(data[..pos], needle)
  }

  function Kept(filled: bytes, overlap: nat): bytes {
    if |filled| >= overlap then filled[|filled| - overlap..] else filled
  }

  lemma ScanStep(data: bytes, needle: bytes, pos: nat, carried: bytes, count: nat, n: nat)
    requires Scanned(data, needle, pos, carried, count) && pos + n <= |data|
    ensures var filled := carried + data[pos..pos + n];
            Scanned(data, needle, pos + n, Kept(filled, |needle| - 1), count + Count(filled, needle))
  {
    hide Count;
    var c, overlap := |carried|, |needle| - 1;
    var filled := carried + data[pos..pos + n];
    Adjacent(data, pos - c, pos, pos + n);
    ChunkCount(data, needle, pos, pos + n, c);
    if |filled| >= overlap {
      SliceOfSlice(data, pos - c, pos + n, |filled| - overlap, overlap);
    }
  }

  /** `count_needle_in_file`: for every file, every needle and every schedule of short reads, the naive count
      of the whole file, unless a read fails. */
  method CountNeedleInFile(data: bytes, needle: bytes, schedule: Schedule) returns (r: Result<nat>)
    ensures r.Ok? ==> r.value == Count(data, needle)
    ensures r.Err? ==> exists i :: schedule(i).None?
  {
    hide Count, Scanned;
    if needle == [] {
      EmptyCount(data, needle);
      return Ok(0);
    }
    var file := new File(data, schedule);
    var overlap := |needle| - 1;
    var buf := new byte[overlap + CHUNK];
    var carry: nat, count: nat := 0, 0;
    StartScan(data, needle);
    assert buf[..0] == [];
    while true
      invariant file.Valid() && file.data == data && file.schedule == schedule && fresh(file) && fresh(buf)
      invariant 0 <= carry <= overlap && 0 <= count && Scanned(data, needle, file.pos, buf[..carry], count)
      decreases |data| - file.pos
    {
      ghost var p, carried := file.pos, buf[..carry];
      var n :- file.Read(buf, carry);
      if n == 0 {
        break;
      }
      var filled := carry + n;
      assert buf[..carry] == carried;
      assert buf[carry..filled] == data[p..p + n];
      assert buf[..filled] == buf[..carry] + buf[carry..filled];
      ScanStep(data, needle, p, carried, count, n);
      count := count + Count(buf[..filled], needle);
      if filled >= overlap {
        assert buf[..filled][filled - overlap..] == buf[filled - overlap..filled];
        CopyWithin(buf, filled - overlap, overlap);
        carry := overlap;
      } else {
        carry := filled;
      }
    }
    EndScan(data, needle, buf[..carry], count);
    return Ok(count);
  }

  lemma StartScan(data: bytes, needle: bytes)
    requires needle != []
    ensures Scanned(data, needle, 0, [], 0)
  {
    assert data[..0] == [];
  }

  lemma EndScan(data: bytes, needle: bytes, carried: bytes, count: nat)
    requires Scanned(data, needle, |data|, carried, count)
    ensures count == Count(data, needle)
  {
    assert data[..|data|] == data;
  }

  lemma EmptyCount(hay: bytes, needle: bytes)
    ensures hay == [] || needle == [] ==> Count(hay, needle) == 0
  {
  }

  // ---------- the independent scanner ----------

  /** `bytes.find`: the first match at or after `start`. */
  function First(hay: bytes, needle: bytes, start: nat): (r: Option<nat>)
    ensures r.Some? ==> start <= r.value && MatchAt(hay, needle, r.value)
    ensures r.Some? ==> forall k :: start <= k < r.value ==> !MatchAt(hay, needle, k)
    ensures r.None? ==> forall k :: start <= k ==> !MatchAt(hay, needle, k)
    decreases |hay| - start
  {
    if start + |needle| > |hay| then None
    else if MatchAt(hay, needle, start) then Some(start)
    else if start + 1 > |hay| then None
    else First(hay, needle, start + 1)
  }

  lemma {:induction false} NoMatchBetween(hay: bytes, needle: bytes, a: nat, b: nat)
    requires a <= b && forall k :: a <= k < b ==> !MatchAt(hay, needle, k)
    ensures CountBelow(hay, needle, b) == CountBelow(hay, needle, a)
    decreases b - a
  {
    if a < b {
      NoMatchBetween(hay, needle, a, b - 1);
    }
  }

  lemma MatchFits(hay: bytes, needle: bytes, k: nat)
    requires MatchAt(hay, needle, k) && needle != []
    ensures k < |hay| && k < Starts(|hay|, |needle|)
  {
  }

  lemma NoMatchBeyond(hay: bytes, needle: bytes)
    requires needle != []
    ensures forall k :: Starts(|hay|, |needle|) <= k ==> !MatchAt(hay, needle, k)
  {
  }

  /** `find_all`: every match offset once, in order, and as many as the counters report. */
  method FindAll(hay: bytes, needle: bytes) returns (offsets: seq<nat>)
    ensures forall i :: 0 <= i < |offsets| ==> MatchAt(hay, needle, offsets[i])
    ensures forall i, j :: 0 <= i < j < |offsets| ==> offsets[i] < offsets[j]
    ensures needle != [] ==> forall k :: MatchAt(hay, needle, k) ==> k in offsets
    ensures |offsets| == Count(hay, needle)
  {
    hide MatchAt, First;
    offsets := [];
    if needle == [] {
      return;
    }
    NoneBelowZero(hay, needle);
    var start := 0;
    while true
      invariant start <= |hay|
      invariant forall i :: 0 <= i < |offsets| ==> MatchAt(hay, needle, offsets[i]) && offsets[i] < start
      invariant forall i, j :: 0 <= i < j < |offsets| ==> offsets[i] < offsets[j]
      invariant forall k :: 0 <= k < start && MatchAt(hay, needle, k) ==> k in offsets
      invariant |offsets| == CountBelow(hay, needle, start)
      decreases |hay| - start
    {
      var idx := First(hay, needle, start);
      if idx.None? {
        break;
      }
      NoMatchBetween(hay, needle, start, idx.value);
      MatchFits(hay, needle, idx.value);
      offsets := offsets + [idx.value];
      start := idx.value + 1;
    }
    var end := Starts(|hay|, |needle|);
    NoMatchBeyond(hay, needle);
    if start <= end {
      NoMatchBetween(hay, needle, start, end);
    } else {
      NoMatchBetween(hay, needle, end, start);
    }
  }
}
