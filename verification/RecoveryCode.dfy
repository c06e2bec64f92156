/** What a user may type for a recovery code: normalisation, and the formatting noise it undoes. */
module RecoveryCode {
  import opened Bytes
  import opened Crockford

  function ToAsciiUpper(c: char): char {
    if 'a' <= c <= 'z' then c - 'a' + 'A' else c
  }

  /** Upper case, then Crockford's aliases. */
  function Mapped(c: char): char {
    var u := ToAsciiUpper(c);
    if u == 'O' then '0' else if u == 'I' || u == 'L' then '1' else u
  }

  /** The membership test looks at the low byte of the character only. */
  predicate IsKept(c: char) {
    (Mapped(c) as int % 256) as char in CROCKFORD
  }

  function Normalized(s: string): string {
    if s == [] then [] else (if IsKept(s[0]) then [Mapped(s[0])] else []) + Normalized(s[1..])
  }

  method Normalize(input: string) returns (out: string)
    ensures out == Normalized(input)
  {
    hide IsKept, Mapped;
    out := "";
    for i := 0 to |input|
      invariant out + Normalized(input[i..]) == Normalized(input)
    {
      assert input[i..][1..] == input[i + 1..];
      if IsKept(input[i]) {
        out := out + [Mapped(input[i])];
      }
    }
    assert out + [] == out;
  }

  lemma {:induction false} NormalizedAppends(a: string, b: string)
    ensures Normalized(a + b) == Normalized(a) + Normalized(b)
  {
    hide IsKept, Mapped;
    if a == [] {
      assert a + b == b;
    } else {
      assert (a + b)[0] == a[0] && (a + b)[1..] == a[1..] + b;
      NormalizedAppends(a[1..], b);
      var head := if IsKept(a[0]) then [Mapped(a[0])] else [];
      assert Normalized(a + b) == head + (Normalized(a[1..]) + Normalized(b));
      assert Normalized(a) == head + Normalized(a[1..]);
    }
  }

  lemma SymbolsAreUpper(c: char)
    ensures c in CROCKFORD ==> ('0' <= c <= '9' || 'A' <= c <= 'Z') && c != 'O' && c != 'I' && c != 'L' && c != 'U'
    ensures ('0' <= c <= '9' || 'A' <= c <= 'Z') && c != 'O' && c != 'I' && c != 'L' && c != 'U' ==> c in CROCKFORD
  {
    if c in CROCKFORD {
      var v :| 0 <= v < |CROCKFORD| && CROCKFORD[v] == c;
      SymbolValue(v);
    }
    if ('0' <= c <= '9' || 'A' <= c <= 'Z') && c != 'O' && c != 'I' && c != 'L' && c != 'U' {
      assert CROCKFORD[ValueOf(c)] == c by { SymbolOf(c); }
    }
  }

  lemma SymbolOf(c: char)
    requires ('0' <= c <= '9' || 'A' <= c <= 'Z') && c != 'O' && c != 'I' && c != 'L' && c != 'U'
    ensures CROCKFORD[ValueOf(c)] == c
  {
    var v := ValueOf(c);
    if v < 8 {} else if v < 16 {} else if v < 24 {} else {}
  }

  lemma KeptIsStable(c: char)
    requires IsKept(c)
    ensures IsKept(Mapped(c)) && Mapped(Mapped(c)) == Mapped(c)
  {
    hide CROCKFORD;
  }

  /** For every input, characters outside the alphabet included. */
  lemma {:induction false} NormalizedIdempotent(s: string)
    ensures Normalized(Normalized(s)) == Normalized(s)
  {
    hide IsKept, Mapped;
    if s != [] {
      NormalizedIdempotent(s[1..]);
      if IsKept(s[0]) {
        var m := Mapped(s[0]);
        KeptIsStable(s[0]);
        NormalizedAppends([m], Normalized(s[1..]));
        assert Normalized([m]) == [m] by { assert [m][1..] == []; }
      } else {
        assert [] + Normalized(s[1..]) == Normalized(s[1..]);
      }
    }
  }

  /** A character that survives although it is no symbol: only its low byte is one. */
  predicate Impostor(c: char) {
    c as int >= 256 && (c as int % 256) as char in CROCKFORD
  }

  lemma LowByteIsItself(c: char)
    requires c as int < 256
    ensures (c as int % 256) as char == c
  {
  }

  lemma KeptIsSymbolUnlessImpostor(c: char)
    requires IsKept(c)
    ensures Mapped(c) in CROCKFORD <==> !Impostor(c)
  {
    hide CROCKFORD;
    if c as int >= 256 {
      assert Mapped(c) == c;
      SymbolsAreUpper(c);
    } else {
      LowByteIsItself(Mapped(c));
    }
  }

  /** The result stays inside the alphabet exactly when no character of the input is an impostor. */
  lemma {:induction false} AlphabetClosureIff(s: string)
    ensures (forall c :: c in Normalized(s) ==> c in CROCKFORD) <==> (forall c :: c in s ==> !Impostor(c))
  {
    hide IsKept, Mapped, Impostor, CROCKFORD;
    if s != [] {
      AlphabetClosureIff(s[1..]);
      assert s == [s[0]] + s[1..];
      var rest := Normalized(s[1..]);
      if IsKept(s[0]) {
        KeptIsSymbolUnlessImpostor(s[0]);
        assert Normalized(s) == [Mapped(s[0])] + rest;
        assert Mapped(s[0]) in Normalized(s);
      } else {
        DroppedIsNoImpostor(s[0]);
        assert Normalized(s) == [] + rest;
      }
    }
  }

  lemma DroppedIsNoImpostor(c: char)
    requires !IsKept(c)
    ensures !Impostor(c)
  {
  }

  lemma ImpostorExample()
    ensures Normalized("\U{0141}") == "\U{0141}" && '\U{0141}' !in CROCKFORD
  {
    var c := '\U{0141}';
    assert Mapped(c) == c && (c as int % 256) as char == 'A';
    assert CROCKFORD[10] == 'A';
    SymbolsAreUpper(c);
    assert [c][1..] == [];
  }

  // ---------- reading a code through noise ----------

  /** A way of writing the symbol `k`: either case, or a letter Crockford reads as that digit. */
  predicate Writes(c: char, k: char) {
    c == k || ('A' <= k <= 'Z' && c == k - 'A' + 'a') || (k == '0' && c in "oO") || (k == '1' && c in "iIlL")
  }

  /** A character that means nothing: neither a symbol nor a way of writing one. */
  predicate Noise(c: char) {
    (c as int) < 256 && !('0' <= c <= '9') && (('A' <= c <= 'Z' || 'a' <= c <= 'z') ==> c in "uU")
  }

  /** `input` is the code written symbol by symbol, in any case and alias, with noise anywhere. */
  predicate Reads(input: string, code: string)
    decreases |input|
  {
    if input == [] then code == []
    else
      || (Noise(input[0]) && Reads(input[1..], code))
      || (code != [] && Writes(input[0], code[0]) && Reads(input[1..], code[1..]))
  }

  predicate OverAlphabet(code: string) {
    forall i :: 0 <= i < |code| ==> code[i] in CROCKFORD
  }

  lemma OneCharacter(c: char)
    requires (c as int) < 256
    ensures IsKept(c) <==> !Noise(c)
    ensures forall k :: k in CROCKFORD ==> (Writes(c, k) <==> IsKept(c) && Mapped(c) == k)
  {
    hide CROCKFORD;
    LowByteIsItself(Mapped(c));
    SymbolsAreUpper(Mapped(c));
    forall k | k in CROCKFORD ensures Writes(c, k) <==> IsKept(c) && Mapped(c) == k {
      SymbolsAreUpper(k);
    }
  }

  /** Normalisation returns the code exactly from the inputs that spell it. */
  lemma {:induction false} NormalizedIffReads(input: string, code: string)
    requires forall i :: 0 <= i < |input| ==> (input[i] as int) < 256
    requires OverAlphabet(code)
    ensures Normalized(input) == code <==> Reads(input, code)
    decreases |input|
  {
    hide IsKept, Mapped, Noise, Writes, CROCKFORD;
    if input != [] {
      var c, rest := input[0], input[1..];
      OneCharacter(c);
      if IsKept(c) {
        if code != [] {
          assert code[0] in CROCKFORD;
          assert forall i :: 0 <= i < |code[1..]| ==> code[1..][i] == code[i + 1];
          NormalizedIffReads(rest, code[1..]);
          assert code == [code[0]] + code[1..];
          assert Normalized(input) == [Mapped(c)] + Normalized(rest);
          assert Normalized(input)[1..] == Normalized(rest);
        }
      } else {
        NormalizedIffReads(rest, code);
        assert Normalized(input) == [] + Normalized(rest) == Normalized(rest);
        if code != [] {
          assert code[0] in CROCKFORD;
        }
      }
    }
  }

  lemma {:induction false} EncodedOverAlphabet(b: bytes)
    ensures OverAlphabet(Encoded(b))
  {
  }

  // ---------- display ----------

  /** Groups of four with dashes between. */
  function Displayed(s: string): string
    decreases |s|
  {
    if |s| <= 4 then s else s[..4] + "-" + Displayed(s[4..])
  }

  /** A dash stands at every fifth place, and between the dashes the code's symbols in order. */
  lemma {:induction false} DisplayedAt(s: string, k: nat)
    ensures |Displayed(s)| == |s| + if s == "" then 0 else (|s| - 1) / 4
    ensures k < |Displayed(s)| ==>
              if k % 5 == 4 then Displayed(s)[k] == '-'
              else k - k / 5 < |s| && Displayed(s)[k] == s[k - k / 5]
    decreases |s|
  {
    if |s| > 4 {
      DisplayedAt(s[4..], if k < 5 then 0 else k - 5);
    }
  }

  lemma {:induction false} DisplayedSnoc(s: string, c: char)
    ensures Displayed(s + [c]) == Displayed(s) + (if |s| > 0 && |s| % 4 == 0 then "-" else "") + [c]
    decreases |s|
  {
    if |s| > 4 {
      assert (s + [c])[..4] == s[..4] && (s + [c])[4..] == s[4..] + [c];
      DisplayedSnoc(s[4..], c);
    } else if |s| == 4 {
      assert (s + [c])[..4] == s && (s + [c])[4..] == [c];
    }
  }

  method Display(canonical: string) returns (out: string)
    ensures out == Displayed(canonical)
  {
    out := "";
    for i := 0 to |canonical|
      invariant out == Displayed(canonical[..i])
    {
      DisplayedSnoc(canonical[..i], canonical[i]);
      assert canonical[..i + 1] == canonical[..i] + [canonical[i]];
      if i > 0 && i % 4 == 0 {
        out := out + "-";
      }
      out := out + [canonical[i]];
    }
    assert canonical[..|canonical|] == canonical;
  }

  lemma {:induction false} CanonicalIsFixed(code: string)
    requires OverAlphabet(code)
    ensures Normalized(code) == code
  {
    hide CROCKFORD;
    if code != [] {
      assert code[0] in CROCKFORD;
      CanonicalChar(code[0]);
      assert forall i :: 0 <= i < |code[1..]| ==> code[1..][i] == code[i + 1];
      CanonicalIsFixed(code[1..]);
      assert code == [code[0]] + code[1..];
    }
  }

  lemma CanonicalChar(k: char)
    requires k in CROCKFORD
    ensures IsKept(k) && Mapped(k) == k
  {
    hide CROCKFORD;
    SymbolsAreUpper(k);
    LowByteIsItself(k);
  }

  lemma DashVanishes()
    ensures Normalized("-") == ""
  {
    hide CROCKFORD;
    LowByteIsItself('-');
    SymbolsAreUpper('-');
    assert "-"[1..] == "";
  }

  /** The displayed form normalises back to the code. */
  lemma {:induction false} DisplayRoundTrip(code: string)
    requires OverAlphabet(code)
    ensures Normalized(Displayed(code)) == code
    decreases |code|
  {
    hide CROCKFORD, Normalized;
    if |code| <= 4 {
      CanonicalIsFixed(code);
    } else {
      assert OverAlphabet(code[..4]) && OverAlphabet(code[4..]);
      CanonicalIsFixed(code[..4]);
      DisplayRoundTrip(code[4..]);
      DashVanishes();
      NormalizedAppends(code[..4] + "-", Displayed(code[4..]));
      NormalizedAppends(code[..4], "-");
      assert code == code[..4] + code[4..];
    }
  }

  /** Changing the case of any characters, in any input, changes nothing. */
  lemma {:induction false} CaseNeverMatters(s: string, t: string)
    requires |s| == |t| && forall i :: 0 <= i < |s| ==> ToAsciiUpper(s[i]) == ToAsciiUpper(t[i])
    ensures Normalized(s) == Normalized(t)
  {
    if s != [] {
      assert Mapped(s[0]) == Mapped(t[0]);
      CaseNeverMatters(s[1..], t[1..]);
    }
  }

  /** Nor does text that normalises to nothing, wherever it is inserted. */
  lemma InsertionNeverMatters(a: string, junk: string, b: string)
    requires Normalized(junk) == ""
    ensures Normalized(a + junk + b) == Normalized(a + b)
  {
    NormalizedAppends(a + junk, b);
    NormalizedAppends(a, junk);
    NormalizedAppends(a, b);
  }
}
